/** Creature records, injected random draws and the list operations the
    component performs on its creature list: finding an entry by id and
    filtering entries out by id. */
module Creatures {

  /** A random draw `d` stands for the fraction `d / RANDOM_SCALE` in [0, 1)
      that `Math.random()` would have produced. */
  const RANDOM_SCALE: int := 1000
  type Draw = d: int | 0 <= d < RANDOM_SCALE

  /** `EXPLOSION_CHANCE = 0.1`: a draw explodes when `d / RANDOM_SCALE < 0.1`. */
  const EXPLOSION_THRESHOLD: int := 100

  /** Identifiers are the strings `uuidv4()` produces, supplied as inputs. */
  type Id = string

  /** One entry of the creature list; `sprite` is the catalogue number whose
      sprite image the entry shows. */
  datatype Creature = Creature(id: Id, name: string, sprite: nat, top: int, left: int, isExploding: bool)

  /** The area creatures are placed in (window size minus a margin). */
  datatype Box = Box(top: int, left: int, width: int, height: int)

  /** `Math.random() * extent` as an integer: the offset lies in [0, extent)
      for a positive extent and in [extent, 0] otherwise. */
  function Offset(d: Draw, extent: int): (r: int)
    ensures extent > 0 ==> 0 <= r < extent
    ensures extent <= 0 ==> extent <= r <= 0
  {
    OffsetBounds(d, extent);
    d * extent / RANDOM_SCALE
  }

  lemma OffsetBounds(d: Draw, extent: int)
    ensures extent > 0 ==> 0 <= d * extent / RANDOM_SCALE < extent
    ensures extent <= 0 ==> extent <= d * extent / RANDOM_SCALE <= 0
  {
    if extent > 0 {
      assert 0 <= d * extent < RANDOM_SCALE * extent;
    } else {
      assert RANDOM_SCALE * extent <= d * extent <= 0;
    }
  }

  /** A coordinate `origin + Math.random() * extent` lies in this range. */
  predicate InRange(v: int, origin: int, extent: int) {
    if extent > 0 then origin <= v < origin + extent else origin + extent <= v <= origin
  }

  function Coordinate(origin: int, extent: int, d: Draw): (r: int)
    ensures InRange(r, origin, extent)
    ensures extent > 0 ==> origin <= r < origin + extent
  {
    origin + Offset(d, extent)
  }

  predicate InBox(box: Box, c: Creature) {
    InRange(c.top, box.top, box.height) && InRange(c.left, box.left, box.width)
  }

  predicate HasId(cs: seq<Creature>, id: Id) {
    exists i :: 0 <= i < |cs| && cs[i].id == id
  }

  /** `findIndex` on the list: the first index whose entry carries `id`, or -1. */
  function IndexOf(cs: seq<Creature>, id: Id): (r: int)
    ensures -1 <= r < |cs|
    ensures r == -1 <==> !HasId(cs, id)
    ensures r >= 0 ==> cs[r].id == id && forall i :: 0 <= i < r ==> cs[i].id != id
  {
    if cs == [] then -1
    else if cs[0].id == id then 0
    else
      var k := IndexOf(cs[1..], id);
      assert forall i :: 0 < i < |cs| ==> cs[i] == cs[1..][i - 1];
      if k == -1 then -1 else k + 1
  }

  /** The search as the loop `findIndex` performs. */
  method FindIndex(cs: seq<Creature>, id: Id) returns (idx: int)
    ensures idx == IndexOf(cs, id)
  {
    idx := 0;
    while idx < |cs|
      invariant 0 <= idx <= |cs|
      invariant forall i :: 0 <= i < idx ==> cs[i].id != id
    {
      if cs[idx].id == id {
        return;
      }
      idx := idx + 1;
    }
    idx := -1;
  }

  /** `filter((p) => p.id !== id)`. */
  function Without(cs: seq<Creature>, id: Id): seq<Creature> {
    if cs == [] then []
    else if cs[0].id == id then Without(cs[1..], id)
    else [cs[0]] + Without(cs[1..], id)
  }

  /** The filter keeps exactly the entries whose id differs. */
  lemma {:induction false} WithoutMembers(cs: seq<Creature>, id: Id)
    ensures forall c :: c in Without(cs, id) <==> c in cs && c.id != id
  {
    if cs != [] {
      WithoutMembers(cs[1..], id);
      assert cs == [cs[0]] + cs[1..];
    }
  }

  /** The filter keeps the survivors in their original order: filtering a
      concatenation filters each part and concatenates the results. */
  lemma {:induction false} WithoutAppend(a: seq<Creature>, b: seq<Creature>, id: Id)
    ensures Without(a + b, id) == Without(a, id) + Without(b, id)
  {
    if a == [] {
      assert a + b == b;
    } else {
      assert (a + b)[1..] == a[1..] + b;
      WithoutAppend(a[1..], b, id);
    }
  }

  /** Filtering out an id that is not in the list changes nothing. */
  lemma {:induction false} WithoutAbsent(cs: seq<Creature>, id: Id)
    requires !HasId(cs, id)
    ensures Without(cs, id) == cs
  {
    if cs != [] {
      assert !HasId(cs[1..], id) by {
        forall i | 0 <= i < |cs| - 1 ensures cs[1..][i].id != id {
          assert cs[1..][i] == cs[i + 1];
        }
      }
      WithoutAbsent(cs[1..], id);
    }
  }

  /** The list becomes empty exactly when every entry carried the id. */
  lemma {:induction false} WithoutEmpty(cs: seq<Creature>, id: Id)
    ensures Without(cs, id) == [] <==> forall i :: 0 <= i < |cs| ==> cs[i].id == id
  {
    if cs != [] {
      WithoutEmpty(cs[1..], id);
      assert forall i :: 0 < i < |cs| ==> cs[i] == cs[1..][i - 1];
    }
  }

  /** Removing the same id twice is the same as removing it once. */
  lemma WithoutIdempotent(cs: seq<Creature>, id: Id)
    ensures Without(Without(cs, id), id) == Without(cs, id)
  {
    var r := Without(cs, id);
    WithoutMembers(cs, id);
    assert forall i :: 0 <= i < |r| ==> r[i] in r;
    WithoutAbsent(r, id);
  }

  /** Exactly the entries carrying the id disappear. */
  lemma {:induction false} WithoutLength(cs: seq<Creature>, id: Id)
    ensures |Without(cs, id)| == |cs| - CountId(cs, id)
  {
    if cs != [] {
      WithoutLength(cs[1..], id);
    }
  }

  function CountId(cs: seq<Creature>, id: Id): nat {
    if cs == [] then 0 else (if cs[0].id == id then 1 else 0) + CountId(cs[1..], id)
  }
}
