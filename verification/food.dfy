/**
 Food placement. The game draws uniformly random interior cells and rejects
 every draw that lands on the snake, looping until one does not. Randomness is
 not modelled: `GenerateFood` picks any free cell, and `GenerateFoodFromDraws`
 replays the rejection loop over a given finite prefix of the random stream.
 */
module Food {
  import opened Geometry
  import opened Board

  datatype Option<T> = None | Some(value: T)

  /**
   Some cell the rejection loop may return. The loop only ends when a free
   cell exists, so that is required here.
   */
  method GenerateFood(width: int, height: int, snake: seq<Pos>) returns (food: Pos)
    requires HasFreeCell(width, height, snake)
    ensures Free(width, height, snake, food)
  {
    ghost var p :| Free(width, height, snake, p);
    assert Free(width, height, snake, Pos(p.x, p.y));
    var x, y :| 1 <= x <= width - 2 && 1 <= y <= height - 2 && Free(width, height, snake, Pos(x, y));
    food := Pos(x, y);
  }

  /**
   The rejection loop run on the draws `draws` (each in the range the random
   generator produces). It returns the first draw that is not on the snake,
   with the number of draws consumed, or `None` once the draws are used up
   without success (the real loop would keep drawing).
   */
  method GenerateFoodFromDraws(width: int, height: int, snake: seq<Pos>, draws: seq<Pos>)
    returns (food: Option<Pos>, tries: nat)
    requires AllInterior(width, height, draws)
    ensures tries <= |draws|
    ensures food.Some? ==> 0 < tries && food.value == draws[tries - 1]
    ensures food.Some? ==> Free(width, height, snake, food.value)
    ensures food.None? ==> tries == |draws|
    ensures forall j :: 0 <= j < |draws| && j < tries - 1 ==> draws[j] in snake
    ensures food.None? <==> forall j :: 0 <= j < |draws| ==> draws[j] in snake
  {
    tries := 0;
    while tries < |draws|
      invariant tries <= |draws|
      invariant forall j :: 0 <= j < tries ==> draws[j] in snake
    {
      var candidate := draws[tries];
      tries := tries + 1;
      if candidate !in snake {
        return Some(candidate), tries;
      }
    }
    return None, tries;
  }
}
