/**
 * The duplicate filter of `flood`: `dead_lsps` maps an originator's port to
 * the newest advertisement timestamp seen from it, and an advertisement is
 * passed on only if its timestamp is newer than that entry (0 when there
 * is none).
 */
module Freshness {

  /** The newest timestamp recorded for `origin`; 0 when none is. */
  function Known(dead: map<int, int>, origin: int): int {
    if origin in dead then dead[origin] else 0
  }

  /**
   * Whether `flood` passes on an advertisement from `origin` stamped
   * `stamp`: exactly when recording it raises the originator's entry, which
   * then holds `stamp`.
   */
  predicate IsFresh(dead: map<int, int>, origin: int, stamp: int)
    ensures IsFresh(dead, origin, stamp) <==> Known(Record(dead, origin, stamp), origin) > Known(dead, origin)
    ensures IsFresh(dead, origin, stamp) ==> Known(Record(dead, origin, stamp), origin) == stamp
  {
    Known(dead, origin) < stamp
  }

  function Max(a: int, b: int): int {
    if a < b then b else a
  }

  /**
   * The table after `flood` reads an advertisement: a missing entry is
   * first set to 0, then a newer timestamp replaces it. Entries never
   * decrease and only the originator's entry changes.
   */
  function Record(dead: map<int, int>, origin: int, stamp: int): (r: map<int, int>)
    ensures r.Keys == dead.Keys + {origin}
    ensures forall k :: k in dead ==> dead[k] <= r[k]
    ensures forall k :: k in dead && k != origin ==> r[k] == dead[k]
    ensures Known(r, origin) == Max(Known(dead, origin), stamp)
  {
    var d := if origin in dead then dead else dead[origin := 0];
    if d[origin] < stamp then d[origin := stamp] else d
  }

  /** One advertisement reaching `flood`: its originator's port and its timestamp. */
  datatype Arrival = Arrival(origin: int, stamp: int)

  /** The table after `flood` has read each arrival in turn. */
  function Replay(dead: map<int, int>, arrivals: seq<Arrival>): map<int, int>
    decreases |arrivals|
  {
    if |arrivals| == 0 then dead
    else
      var a := arrivals[|arrivals| - 1];
      Record(Replay(dead, arrivals[..|arrivals| - 1]), a.origin, a.stamp)
  }

  /** The largest of `k0` and the timestamps of the arrivals from `origin`. */
  function Highest(k0: int, arrivals: seq<Arrival>, origin: int): int
    decreases |arrivals|
  {
    if |arrivals| == 0 then k0
    else
      var a := arrivals[|arrivals| - 1];
      var h := Highest(k0, arrivals[..|arrivals| - 1], origin);
      if a.origin == origin then Max(h, a.stamp) else h
  }

  /** Whether the `i`th arrival is passed on, given everything read before it. */
  predicate Accepted(dead: map<int, int>, arrivals: seq<Arrival>, i: int)
    requires 0 <= i < |arrivals|
  {
    IsFresh(Replay(dead, arrivals[..i]), arrivals[i].origin, arrivals[i].stamp)
  }

  lemma {:induction false} ReplayKnown(dead: map<int, int>, arrivals: seq<Arrival>, origin: int)
    ensures Known(Replay(dead, arrivals), origin) == Highest(Known(dead, origin), arrivals, origin)
    decreases |arrivals|
  {
    if |arrivals| > 0 {
      ReplayKnown(dead, arrivals[..|arrivals| - 1], origin);
    }
  }

  lemma {:induction false} HighestBelow(k0: int, arrivals: seq<Arrival>, origin: int, s: int)
    ensures Highest(k0, arrivals, origin) < s <==>
      k0 < s && forall j :: 0 <= j < |arrivals| && arrivals[j].origin == origin ==> arrivals[j].stamp < s
    decreases |arrivals|
  {
    if |arrivals| > 0 {
      var ps := arrivals[..|arrivals| - 1];
      HighestBelow(k0, ps, origin, s);
      assert forall j :: 0 <= j < |ps| ==> ps[j] == arrivals[j];
    }
  }

  /**
   * An advertisement is passed on exactly when its timestamp is newer than
   * the initial entry for its originator and than every earlier
   * advertisement from the same originator; arrivals from other
   * originators do not matter.
   */
  lemma AcceptedIff(dead: map<int, int>, arrivals: seq<Arrival>, i: int)
    requires 0 <= i < |arrivals|
    ensures Accepted(dead, arrivals, i) <==>
      && Known(dead, arrivals[i].origin) < arrivals[i].stamp
      && forall j :: 0 <= j < i && arrivals[j].origin == arrivals[i].origin ==> arrivals[j].stamp < arrivals[i].stamp
  {
    var o := arrivals[i].origin;
    ReplayKnown(dead, arrivals[..i], o);
    HighestBelow(Known(dead, o), arrivals[..i], o, arrivals[i].stamp);
    assert forall j :: 0 <= j < i ==> arrivals[..i][j] == arrivals[j];
  }

  /** Advertisements from one originator are passed on in strictly increasing timestamp order. */
  lemma AcceptedIncrease(dead: map<int, int>, arrivals: seq<Arrival>, i: int, j: int)
    requires 0 <= i < j < |arrivals| && arrivals[i].origin == arrivals[j].origin
    requires Accepted(dead, arrivals, i) && Accepted(dead, arrivals, j)
    ensures arrivals[i].stamp < arrivals[j].stamp
  {
    AcceptedIff(dead, arrivals, j);
  }

  /** Reading the same advertisement again passes nothing on. */
  lemma RepeatDropped(dead: map<int, int>, arrivals: seq<Arrival>, i: int, j: int)
    requires 0 <= i < j < |arrivals| && arrivals[i] == arrivals[j]
    ensures !Accepted(dead, arrivals, j)
  {
    AcceptedIff(dead, arrivals, j);
  }
}
