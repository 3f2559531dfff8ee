/** The creature lifecycle of the `Something` component as a state machine:
    the creature list, the set of ids that have exploded, the leaderboard,
    the map of pending move timers and the two flags. Every timer firing is
    an explicit method call; random draws and clock readings are arguments. */
module Lifecycle {
  import opened Creatures
  import opened Leaderboard
  import opened Population

  const MIN_DELAY: int := 1000
  const MAX_DELAY: int := 3000

  /** `Math.random() * (MAX_DELAY - MIN_DELAY) + MIN_DELAY`. */
  function NextDelay(d: Draw): (r: int)
    ensures MIN_DELAY <= r < MAX_DELAY
  {
    MIN_DELAY + Offset(d, MAX_DELAY - MIN_DELAY)
  }

  predicate Distinct(s: seq<Id>) {
    forall i, j :: 0 <= i < j < |s| ==> s[i] != s[j]
  }

  /** The ids of the list, in list order. */
  function Ids(cs: seq<Creature>): (r: seq<Id>)
    ensures |r| == |cs| && forall i :: 0 <= i < |cs| ==> r[i] == cs[i].id
  {
    seq(|cs|, i requires 0 <= i < |cs| => cs[i].id)
  }

  predicate DistinctIds(cs: seq<Creature>) {
    Distinct(Ids(cs))
  }

  /** The timers the start effect stores, visiting the list in order: one
      per entry, drawn from the draw at the same position. */
  function Scheduled(cs: seq<Creature>, ds: seq<Draw>): (m: map<Id, int>)
    requires |ds| == |cs|
    ensures forall id :: id in m <==> HasId(cs, id)
    ensures forall id :: id in m ==> MIN_DELAY <= m[id] < MAX_DELAY
  {
    if cs == [] then map[]
    else
      var n := |cs|;
      var m0 := Scheduled(cs[..n - 1], ds[..n - 1]);
      assert forall i :: 0 <= i < n - 1 ==> cs[..n - 1][i] == cs[i];
      m0[cs[n - 1].id := NextDelay(ds[n - 1])]
  }

  /** With distinct ids, every entry's timer carries the delay of its own draw. */
  lemma {:induction false} ScheduledOwnDelay(cs: seq<Creature>, ds: seq<Draw>, i: int)
    requires |ds| == |cs| && DistinctIds(cs) && 0 <= i < |cs|
    ensures cs[i].id in Scheduled(cs, ds) && Scheduled(cs, ds)[cs[i].id] == NextDelay(ds[i])
  {
    var n := |cs|;
    if i < n - 1 {
      var pre, dpre := cs[..n - 1], ds[..n - 1];
      assert DistinctIds(pre) by {
        forall j, k | 0 <= j < k < |pre| ensures Ids(pre)[j] != Ids(pre)[k] {
          assert pre[j] == cs[j] && pre[k] == cs[k];
          assert Ids(cs)[j] != Ids(cs)[k];
        }
      }
      ScheduledOwnDelay(pre, dpre, i);
      assert pre[i] == cs[i] && dpre[i] == ds[i];
      assert Ids(cs)[i] != Ids(cs)[n - 1];
    }
  }

  /** A log without repetitions has as many entries as ids. */
  lemma {:induction false} DistinctCardinality(s: seq<Id>)
    requires Distinct(s)
    ensures |set x | x in s| == |s|
  {
    if s != [] {
      var n := |s|;
      var pre := s[..n - 1];
      assert s == pre + [s[n - 1]];
      assert Distinct(pre) by {
        forall i, j | 0 <= i < j < |pre| ensures pre[i] != pre[j] {
          assert pre[i] == s[i] && pre[j] == s[j];
        }
      }
      DistinctCardinality(pre);
      assert s[n - 1] !in pre by {
        forall i | 0 <= i < |pre| ensures pre[i] != s[n - 1] {
          assert pre[i] == s[i];
        }
      }
      assert (set x | x in s) == (set x | x in pre) + {s[n - 1]};
    }
  }

  class Something {
    const box: Box
    var creatures: seq<Creature>
    var isRunning: bool
    var allPokemonDead: bool
    var leaderboard: seq<Entry>
    /** Pending move timer per id; the stored value is the timer's delay. */
    var timers: map<Id, int>
    var startTime: int
    var exploded: set<Id>
    /** Ids whose 600 ms removal timer has been set and has not fired yet. */
    var pendingRemovals: set<Id>
    /** The ids in the order they exploded since the last reset. */
    ghost var explosionLog: seq<Id>

    ghost predicate Valid()
      reads this
    {
      && (!isRunning ==> timers == map[])
      && (allPokemonDead ==> creatures == [])
      && (forall id :: id in timers ==> MIN_DELAY <= timers[id] < MAX_DELAY)
      && (forall c :: c in creatures ==> InBox(box, c))
      && (forall c :: c in creatures && c.isExploding ==> c.id in exploded && c.id in pendingRemovals)
      && Distinct(explosionLog)
      && exploded == (set id | id in explosionLog)
      && |explosionLog| == |leaderboard|
    }

    /** Mounting the component: the fetch effect populates the list and the
        start/stop effect, with `isRunning` false, clears the timer map. */
    constructor (box: Box, outs: seq<Fetch>)
      requires |outs| == NUMBER_OF_POKEMON - 1
      ensures Valid() && this.box == box
      ensures creatures == Populate(box, outs)
      ensures !isRunning && !allPokemonDead && startTime == 0
      ensures leaderboard == [] && exploded == {} && timers == map[] && pendingRemovals == {}
    {
      var initial := FetchAll(box, outs);
      PopulateFresh(box, outs);
      this.box := box;
      creatures := initial;
      isRunning := false;
      allPokemonDead := false;
      leaderboard := [];
      timers := map[];
      startTime := 0;
      exploded := {};
      pendingRemovals := {};
      explosionLog := [];
    }

    /** Every explosion since the last reset left exactly one record. */
    lemma LeaderboardSize()
      requires Valid()
      ensures |leaderboard| == |exploded|
    {
      DistinctCardinality(explosionLog);
    }

    /** `scheduleNextMove`: stores a timer for `id` while the session runs. */
    method ScheduleNextMove(id: Id, d: Draw)
      requires Valid()
      modifies this`timers
      ensures Valid()
      ensures timers == if isRunning then old(timers)[id := NextDelay(d)] else old(timers)
    {
      if !isRunning {
        return;
      }
      timers := timers[id := NextDelay(d)];
    }

    /** The Start button and the start branch of the start/stop effect; when
        the session already runs the state does not change, so the effect
        does not run again. */
    method Start(now: int, delays: seq<Draw>)
      requires Valid()
      requires |delays| == |creatures|
      modifies this
      ensures Valid()
      ensures creatures == old(creatures) && allPokemonDead == old(allPokemonDead)
      ensures old(isRunning) ==> unchanged(this)
      ensures !old(isRunning) ==> isRunning && startTime == now && timers == Scheduled(creatures, delays)
      ensures leaderboard == old(leaderboard) && exploded == old(exploded)
      ensures pendingRemovals == old(pendingRemovals) && explosionLog == old(explosionLog)
    {
      if isRunning {
        return;
      }
      isRunning := true;
      startTime := now;
      for i := 0 to |creatures|
        invariant Valid() && isRunning && startTime == now
        invariant creatures == old(creatures) && allPokemonDead == old(allPokemonDead)
        invariant leaderboard == old(leaderboard) && exploded == old(exploded)
        invariant pendingRemovals == old(pendingRemovals) && explosionLog == old(explosionLog)
        invariant timers == Scheduled(creatures[..i], delays[..i])
      {
        assert creatures[..i + 1][..i] == creatures[..i];
        assert delays[..i + 1][..i] == delays[..i];
        ScheduleNextMove(creatures[i].id, delays[i]);
      }
      assert creatures[..|creatures|] == creatures && delays[..|delays|] == delays;
    }

    /** Lowering `isRunning`: when it was raised, the stop branch of the
        start/stop effect cancels every move timer. */
    method Stop()
      requires Valid()
      modifies this`isRunning, this`timers
      ensures Valid()
      ensures !isRunning && timers == map[]
    {
      if isRunning {
        isRunning := false;
        timers := map[];
      }
    }

    /** `movePokemon`: one firing of the move timer of `id`. The entry is
        either repositioned, with its next move scheduled, or it explodes:
        marked exploding, recorded once in the exploded set and on the
        leaderboard, its move timer dropped and its removal timer set. Only
        a pending move timer can fire, so `id` has an entry in `timers`. */
    method MovePokemon(id: Id, explodeDraw: Draw, topDraw: Draw, leftDraw: Draw, delayDraw: Draw, now: int)
      requires Valid()
      requires id in timers
      modifies this
      ensures Valid()
      ensures !HasId(old(creatures), id) ==> unchanged(this)
      ensures isRunning == old(isRunning) && allPokemonDead == old(allPokemonDead) && startTime == old(startTime)
      ensures |creatures| == |old(creatures)|
      ensures HasId(old(creatures), id) ==>
        var idx := IndexOf(old(creatures), id);
        var poke := old(creatures)[idx];
        if explodeDraw < EXPLOSION_THRESHOLD && id !in old(exploded) then
          && creatures == old(creatures)[idx := poke.(isExploding := true)]
          && exploded == old(exploded) + {id}
          && leaderboard == old(leaderboard) + [Entry(poke.name, now - startTime)]
          && timers == old(timers) - {id}
          && pendingRemovals == old(pendingRemovals) + {id}
        else
          && creatures == old(creatures)[idx := poke.(top := Coordinate(box.top, box.height, topDraw),
                                                      left := Coordinate(box.left, box.width, leftDraw))]
          && exploded == old(exploded) && leaderboard == old(leaderboard)
          && pendingRemovals == old(pendingRemovals)
          && timers == if isRunning then old(timers)[id := NextDelay(delayDraw)] else old(timers)
    {
      var idx := FindIndex(creatures, id);
      if idx == -1 {
        return;
      }
      var poke := creatures[idx];
      var newTop := Coordinate(box.top, box.height, topDraw);
      var newLeft := Coordinate(box.left, box.width, leftDraw);
      var updated := creatures;
      if explodeDraw < EXPLOSION_THRESHOLD && id !in exploded {
        exploded := exploded + {id};
        explosionLog := explosionLog + [id];
        timers := timers - {id};
        assert InBox(box, poke);
        updated := updated[idx := poke.(isExploding := true)];
        pendingRemovals := pendingRemovals + {id};
        leaderboard := leaderboard + [Entry(poke.name, now - startTime)];
        creatures := updated;
        return;
      }
      updated := updated[idx := poke.(top := newTop, left := newLeft)];
      creatures := updated;
      ScheduleNextMove(id, delayDraw);
    }

    /** The 600 ms removal timer of an exploded `id` fires: the entries with
        that id leave the list, and an empty list raises `allPokemonDead`. */
    method RemovePokemon(id: Id)
      requires Valid()
      requires id in pendingRemovals
      modifies this
      ensures Valid()
      ensures creatures == Without(old(creatures), id)
      ensures allPokemonDead == (old(allPokemonDead) || creatures == [])
      ensures allPokemonDead <==> creatures == []
      ensures pendingRemovals == old(pendingRemovals) - {id}
      ensures isRunning == old(isRunning) && startTime == old(startTime) && timers == old(timers)
      ensures leaderboard == old(leaderboard) && exploded == old(exploded) && explosionLog == old(explosionLog)
    {
      var remaining := Without(creatures, id);
      WithoutMembers(creatures, id);
      if |remaining| == 0 {
        allPokemonDead := true;
      }
      creatures := remaining;
      pendingRemovals := pendingRemovals - {id};
    }

    /** `resetPokemon`: a fresh population, both flags lowered, leaderboard
        and exploded set emptied; lowering `isRunning` runs the stop branch
        of the start/stop effect. Removal timers already set still fire. */
    method ResetPokemon(outs: seq<Fetch>)
      requires Valid()
      requires |outs| == NUMBER_OF_POKEMON - 1
      modifies this
      ensures Valid()
      ensures creatures == Populate(box, outs)
      ensures !allPokemonDead && !isRunning
      ensures leaderboard == [] && exploded == {} && timers == map[]
      ensures startTime == old(startTime) && pendingRemovals == old(pendingRemovals)
    {
      var initial := FetchAll(box, outs);
      PopulateFresh(box, outs);
      creatures := initial;
      allPokemonDead := false;
      Stop();
      leaderboard := [];
      exploded := {};
      explosionLog := [];
    }

    /** Showing the leaderboard sorts the stored records in place by
        non-increasing time. */
    method ShowLeaderboard()
      requires Valid()
      modifies this`leaderboard
      ensures Valid()
      ensures leaderboard == SortByTime(old(leaderboard))
      ensures NonIncreasing(leaderboard)
      ensures multiset(leaderboard) == multiset(old(leaderboard))
    {
      SortedNonIncreasing(leaderboard);
      SortPermutes(leaderboard);
      leaderboard := SortByTime(leaderboard);
    }
  }
}
