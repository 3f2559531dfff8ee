/** Initial population of the creature list: catalogue numbers
    `1 .. NUMBER_OF_POKEMON - 1` are looked up in order, and every number
    whose lookup fails is skipped. */
module Population {
  import opened Creatures

  const NUMBER_OF_POKEMON: int := 1026

  /** The outcome of one catalogue lookup, with the fresh id and the two
      position draws the entry would be created with. */
  datatype Fetch = Failed | Loaded(name: string, uuid: Id, topDraw: Draw, leftDraw: Draw)

  /** The entry created for catalogue number `n` from a successful lookup. */
  function Spawn(box: Box, n: nat, f: Fetch): (c: Creature)
    requires f.Loaded?
    ensures c.id == f.uuid && c.name == f.name && c.sprite == n
    ensures !c.isExploding && InBox(box, c)
  {
    Creature(f.uuid, f.name, n, Coordinate(box.top, box.height, f.topDraw),
             Coordinate(box.left, box.width, f.leftDraw), false)
  }

  /** The list after visiting the lookups `outs`, where `outs[k]` belongs to
      catalogue number `k + 1`. */
  function Populate(box: Box, outs: seq<Fetch>): seq<Creature> {
    if outs == [] then []
    else
      var n := |outs|;
      Populate(box, outs[..n - 1]) + (if outs[n - 1].Loaded? then [Spawn(box, n, outs[n - 1])] else [])
  }

  /** `c` is the entry a successful lookup of its own catalogue number creates. */
  predicate FromLookup(box: Box, outs: seq<Fetch>, c: Creature) {
    1 <= c.sprite <= |outs| && outs[c.sprite - 1].Loaded? && c == Spawn(box, c.sprite, outs[c.sprite - 1])
  }

  predicate IncreasingNumbers(cs: seq<Creature>) {
    forall j, k :: 0 <= j < k < |cs| ==> cs[j].sprite < cs[k].sprite
  }

  predicate HasNumber(cs: seq<Creature>, n: nat) {
    exists k :: 0 <= k < |cs| && cs[k].sprite == n
  }

  lemma PopulateLast(box: Box, outs: seq<Fetch>)
    requires outs != []
    ensures var n := |outs|;
      Populate(box, outs) == Populate(box, outs[..n - 1]) + (if outs[n - 1].Loaded? then [Spawn(box, n, outs[n - 1])] else [])
  {
  }

  lemma {:induction false} PopulateFromLookups(box: Box, outs: seq<Fetch>)
    ensures forall c :: c in Populate(box, outs) ==> FromLookup(box, outs, c)
  {
    if outs != [] {
      var n := |outs|;
      var pre := outs[..n - 1];
      PopulateFromLookups(box, pre);
      PopulateLast(box, outs);
      forall c | c in Populate(box, pre) ensures FromLookup(box, outs, c) {
        assert FromLookup(box, pre, c);
        assert outs[c.sprite - 1] == pre[c.sprite - 1];
      }
    }
  }

  lemma {:induction false} PopulateIncreasing(box: Box, outs: seq<Fetch>)
    ensures IncreasingNumbers(Populate(box, outs))
  {
    if outs != [] {
      var n := |outs|;
      var pre := outs[..n - 1];
      PopulateIncreasing(box, pre);
      PopulateFromLookups(box, pre);
      PopulateLast(box, outs);
      var p := Populate(box, pre);
      assert forall k :: 0 <= k < |p| ==> FromLookup(box, pre, p[k]);
    }
  }

  lemma {:induction false} PopulateCovers(box: Box, outs: seq<Fetch>)
    ensures forall i :: 0 <= i < |outs| && outs[i].Loaded? ==> HasNumber(Populate(box, outs), i + 1)
  {
    if outs != [] {
      var n := |outs|;
      var pre := outs[..n - 1];
      PopulateCovers(box, pre);
      PopulateLast(box, outs);
      var p := Populate(box, pre);
      var q := Populate(box, outs);
      forall i | 0 <= i < |outs| && outs[i].Loaded? ensures HasNumber(q, i + 1) {
        if i < n - 1 {
          assert pre[i] == outs[i];
          assert HasNumber(p, i + 1);
          var k :| 0 <= k < |p| && p[k].sprite == i + 1;
          assert q[k] == p[k];
        } else {
          assert q[|p|].sprite == n;
        }
      }
    }
  }

  /** Each entry comes from a successful lookup of its own catalogue number,
      the numbers strictly increase along the list, and no successful
      lookup is missing. */
  lemma PopulateExactly(box: Box, outs: seq<Fetch>)
    ensures forall c :: c in Populate(box, outs) ==> FromLookup(box, outs, c)
    ensures IncreasingNumbers(Populate(box, outs))
    ensures forall i :: 0 <= i < |outs| && outs[i].Loaded? ==> HasNumber(Populate(box, outs), i + 1)
  {
    PopulateFromLookups(box, outs);
    PopulateIncreasing(box, outs);
    PopulateCovers(box, outs);
  }

  /** Every new entry is not exploding and lies inside the box. */
  lemma PopulateFresh(box: Box, outs: seq<Fetch>)
    ensures forall c :: c in Populate(box, outs) ==> !c.isExploding && InBox(box, c)
  {
    PopulateFromLookups(box, outs);
  }

  /** The fetch loop of `fetchAllPokemon` and `resetPokemon`. */
  method FetchAll(box: Box, outs: seq<Fetch>) returns (initial: seq<Creature>)
    requires |outs| == NUMBER_OF_POKEMON - 1
    ensures initial == Populate(box, outs)
  {
    initial := [];
    for i := 1 to NUMBER_OF_POKEMON
      invariant initial == Populate(box, outs[..i - 1])
    {
      assert outs[..i] == outs[..i - 1] + [outs[i - 1]];
      assert outs[..i][..i - 1] == outs[..i - 1];
      if outs[i - 1].Loaded? {
        initial := initial + [Spawn(box, i, outs[i - 1])];
      }
    }
    assert outs[..NUMBER_OF_POKEMON - 1] == outs;
  }

  /** Lookups of numbers 2 and 4 out of 1..4 fail: only 1 and 3 are created. */
  lemma PartialFailure(box: Box, a: Fetch, b: Fetch)
    requires a.Loaded? && b.Loaded?
    ensures Populate(box, [a, Failed, b, Failed]) == [Spawn(box, 1, a), Spawn(box, 3, b)]
  {
    var outs := [a, Failed, b, Failed];
    assert outs[..3] == [a, Failed, b];
    assert outs[..3][..2] == [a, Failed];
    assert outs[..3][..2][..1] == [a];
    assert outs[..3][..2][..1][..0] == [];
    assert Populate(box, [a]) == [Spawn(box, 1, a)];
    assert Populate(box, [a, Failed]) == [Spawn(box, 1, a)];
    assert Populate(box, [a, Failed, b]) == [Spawn(box, 1, a), Spawn(box, 3, b)];
  }
}
