/**
 * The two extract queries as pure functions over the readable entries of a
 * bank, oldest first (main.go:54-70 and 101-119), together with independent
 * filter-based descriptions of what they return.
 */
module Queries {
  import opened Messages

  /** The room filter of both queries: the empty room stands for every room. */
  predicate Matches(fromRoom: string, e: TimedMsg)
  {
    fromRoom == "" || e.msg.room == fromRoom
  }

  /** The entries of `es` that the room filter admits, in their original order. */
  function InRoom(es: seq<TimedMsg>, fromRoom: string): (r: seq<TimedMsg>)
    ensures |r| <= |es|
  {
    if es == [] then []
    else (if Matches(fromRoom, es[0]) then [es[0]] else []) + InRoom(es[1..], fromRoom)
  }

  /** An entry is kept by the room filter exactly when it is in `es` and in the room. */
  lemma {:induction false} InRoomMembers(es: seq<TimedMsg>, fromRoom: string)
    ensures forall e :: e in InRoom(es, fromRoom) <==> e in es && Matches(fromRoom, e)
  {
    if es != [] {
      InRoomMembers(es[1..], fromRoom);
      assert es == [es[0]] + es[1..];
    }
  }

  /**
   * The entries of `es` strictly after `start`, not after `stop`, and in the
   * room, in their original order.
   */
  function Window(es: seq<TimedMsg>, start: int, stop: int, fromRoom: string): (r: seq<TimedMsg>)
    ensures |r| <= |es|
  {
    if es == [] then []
    else (if start < es[0].ts <= stop && Matches(fromRoom, es[0]) then [es[0]] else [])
         + Window(es[1..], start, stop, fromRoom)
  }

  /**
   * An entry is in the window exactly when it is in `es`, strictly after
   * `start`, not after `stop` and in the room: both bounds as the scan
   * applies them, the lower one exclusive and the upper one inclusive.
   */
  lemma {:induction false} WindowMembers(es: seq<TimedMsg>, start: int, stop: int, fromRoom: string)
    ensures forall e :: e in Window(es, start, stop, fromRoom) <==> e in es && start < e.ts <= stop && Matches(fromRoom, e)
  {
    if es != [] {
      WindowMembers(es[1..], start, stop, fromRoom);
      assert es == [es[0]] + es[1..];
    }
  }

  /** How many of `available` matches a budget of `count` takes. */
  function Clamp(count: int, available: nat): (k: nat)
    ensures k <= available
    ensures count <= 0 ==> k == 0
    ensures 0 <= count <= available ==> k == count
    ensures available <= count ==> k == available
  {
    if count <= 0 then 0 else if count < available then count else available
  }

  /**
   * What the count-back scan of compilePreviousMsg accumulates from the
   * readable entries `es` (oldest first) with a budget of `count` matches.
   */
  function CountBack(es: seq<TimedMsg>, count: int, fromRoom: string): (text: string)
  {
    if es == [] || count <= 0 then ""
    else if Matches(fromRoom, es[0]) then FormatMsg(es[0].msg) + CountBack(es[1..], count - 1, fromRoom)
    else CountBack(es[1..], count, fromRoom)
  }

  /**
   * The count-back scan resumed at position `p` of `es`, as the loop of
   * compilePreviousMsg performs it, by position rather than by suffix.
   */
  function CountBackFrom(es: seq<TimedMsg>, p: nat, count: int, fromRoom: string): (text: string)
    decreases |es| - p
  {
    if p >= |es| || count <= 0 then ""
    else if Matches(fromRoom, es[p]) then FormatMsg(es[p].msg) + CountBackFrom(es, p + 1, count - 1, fromRoom)
    else CountBackFrom(es, p + 1, count, fromRoom)
  }

  /** The scan resumed at position `p` is the scan of the suffix from `p`. */
  lemma {:induction false} CountBackFromSuffix(es: seq<TimedMsg>, p: nat, count: int, fromRoom: string)
    requires p <= |es|
    ensures CountBackFrom(es, p, count, fromRoom) == CountBack(es[p..], count, fromRoom)
    decreases |es| - p
  {
    if p < |es| && 0 < count {
      CountBackFromSuffix(es, p + 1, if Matches(fromRoom, es[p]) then count - 1 else count, fromRoom);
      assert es[p..][0] == es[p] && es[p..][1..] == es[p + 1..];
    } else if p == |es| {
      assert es[p..] == [];
    }
  }

  /**
   * The count-back query renders the OLDEST `count` matching entries, oldest
   * first; entries of other rooms do not use up the budget.
   */
  lemma {:induction false} CountBackKeepsOldest(es: seq<TimedMsg>, count: int, fromRoom: string)
    ensures var matched := InRoom(es, fromRoom);
      CountBack(es, count, fromRoom) == FormatAll(matched[..Clamp(count, |matched|)])
  {
    var matched := InRoom(es, fromRoom);
    if es == [] || count <= 0 {
      assert matched[..Clamp(count, |matched|)] == [];
    } else {
      var rest := InRoom(es[1..], fromRoom);
      CountBackKeepsOldest(es[1..], if Matches(fromRoom, es[0]) then count - 1 else count, fromRoom);
      if Matches(fromRoom, es[0]) {
        assert matched == [es[0]] + rest;
        var k := Clamp(count - 1, |rest|);
        assert Clamp(count, |matched|) == k + 1;
        assert matched[..k + 1] == [es[0]] + rest[..k];
        FormatAllAppend([es[0]], rest[..k]);
      } else {
        assert matched == rest;
      }
    }
  }

  /** With fewer matches than the budget, every match is returned (no padding). */
  lemma CountBackFewerMatches(es: seq<TimedMsg>, count: int, fromRoom: string)
    requires |InRoom(es, fromRoom)| <= count
    ensures CountBack(es, count, fromRoom) == FormatAll(InRoom(es, fromRoom))
  {
    CountBackKeepsOldest(es, count, fromRoom);
    assert InRoom(es, fromRoom)[..|InRoom(es, fromRoom)|] == InRoom(es, fromRoom);
  }

  /** A room that no entry is in yields the empty extract, whatever the budget. */
  lemma CountBackNoMatch(es: seq<TimedMsg>, count: int, fromRoom: string)
    requires forall e :: e in es ==> !Matches(fromRoom, e)
    ensures CountBack(es, count, fromRoom) == ""
  {
    InRoomMembers(es, fromRoom);
    if InRoom(es, fromRoom) != [] {
      assert InRoom(es, fromRoom)[0] in InRoom(es, fromRoom);
    }
    CountBackKeepsOldest(es, count, fromRoom);
  }

  /** The all-rooms filter admits every entry. */
  lemma {:induction false} InRoomAll(es: seq<TimedMsg>)
    ensures InRoom(es, "") == es
  {
    if es != [] {
      InRoomAll(es[1..]);
    }
  }

  /**
   * What the scan of messagesBetween accumulates from the readable entries
   * `es` (oldest first): it stops at the first entry later than `stop`, and
   * renders the entries later than `start` that are in the room.
   */
  function Between(es: seq<TimedMsg>, start: int, stop: int, fromRoom: string): (text: string)
  {
    if es == [] || stop < es[0].ts then ""
    else (if start < es[0].ts && Matches(fromRoom, es[0]) then FormatMsg(es[0].msg) else "")
         + Between(es[1..], start, stop, fromRoom)
  }

  /**
   * The time-window scan resumed at position `p` of `es`, as the loop of
   * messagesBetween performs it, by position rather than by suffix.
   */
  function BetweenFrom(es: seq<TimedMsg>, p: nat, start: int, stop: int, fromRoom: string): (text: string)
    decreases |es| - p
  {
    if p >= |es| || stop < es[p].ts then ""
    else (if start < es[p].ts && Matches(fromRoom, es[p]) then FormatMsg(es[p].msg) else "")
         + BetweenFrom(es, p + 1, start, stop, fromRoom)
  }

  /**
   * One step of the time-window scan at position `p`, after the text `acc`:
   * an entry later than `stop` ends the scan, an entry inside the window and
   * the room adds its line, any other entry adds nothing.
   */
  lemma BetweenFromStep(acc: string, es: seq<TimedMsg>, p: nat, start: int, stop: int, fromRoom: string)
    requires p < |es|
    ensures acc + BetweenFrom(es, p, start, stop, fromRoom) ==
      if stop < es[p].ts then acc
      else if start < es[p].ts && Matches(fromRoom, es[p]) then (acc + FormatMsg(es[p].msg)) + BetweenFrom(es, p + 1, start, stop, fromRoom)
      else acc + BetweenFrom(es, p + 1, start, stop, fromRoom)
  {
    var rest := BetweenFrom(es, p + 1, start, stop, fromRoom);
    if stop < es[p].ts {
      assert acc + "" == acc;
    } else if start < es[p].ts && Matches(fromRoom, es[p]) {
      assert acc + (FormatMsg(es[p].msg) + rest) == (acc + FormatMsg(es[p].msg)) + rest;
    } else {
      assert "" + rest == rest;
    }
  }

  /** The scan resumed at position `p` is the scan of the suffix from `p`. */
  lemma {:induction false} BetweenFromSuffix(es: seq<TimedMsg>, p: nat, start: int, stop: int, fromRoom: string)
    requires p <= |es|
    ensures BetweenFrom(es, p, start, stop, fromRoom) == Between(es[p..], start, stop, fromRoom)
    decreases |es| - p
  {
    if p < |es| {
      BetweenFromSuffix(es, p + 1, start, stop, fromRoom);
      assert es[p..][0] == es[p] && es[p..][1..] == es[p + 1..];
    } else {
      assert es[p..] == [];
    }
  }

  /** The position of the first entry of `es` later than `stop`, or |es| if there is none. */
  function StopCut(es: seq<TimedMsg>, stop: int): (k: nat)
    ensures k <= |es|
  {
    if es == [] || stop < es[0].ts then 0 else 1 + StopCut(es[1..], stop)
  }

  /** Every entry before the cut is not after `stop`, and the entry at the cut is. */
  lemma {:induction false} StopCutIsFirstLate(es: seq<TimedMsg>, stop: int)
    ensures forall i :: 0 <= i < StopCut(es, stop) ==> es[i].ts <= stop
    ensures StopCut(es, stop) < |es| ==> stop < es[StopCut(es, stop)].ts
  {
    if es != [] && es[0].ts <= stop {
      StopCutIsFirstLate(es[1..], stop);
      forall i | 0 < i < StopCut(es, stop) ensures es[i].ts <= stop {
        assert es[i] == es[1..][i - 1];
      }
    }
  }

  /**
   * Whatever the order of the timestamps, the time-window query renders the
   * window's entries among those scanned before the first entry later than
   * `stop`, oldest first.
   */
  lemma {:induction false} BetweenScansPrefix(es: seq<TimedMsg>, start: int, stop: int, fromRoom: string)
    ensures Between(es, start, stop, fromRoom) == FormatAll(Window(es[..StopCut(es, stop)], start, stop, fromRoom))
  {
    if es == [] || stop < es[0].ts {
      assert es[..StopCut(es, stop)] == [];
    } else {
      var rest := es[1..];
      var k := StopCut(rest, stop);
      BetweenScansPrefix(rest, start, stop, fromRoom);
      var pre := es[..k + 1];
      assert pre[0] == es[0] && pre[1..] == rest[..k];
      var head := if start < es[0].ts && Matches(fromRoom, es[0]) then [es[0]] else [];
      var w := Window(rest[..k], start, stop, fromRoom);
      assert Window(pre, start, stop, fromRoom) == head + w;
      FormatAllAppend(head, w);
      assert FormatAll(head) == if start < es[0].ts && Matches(fromRoom, es[0]) then FormatMsg(es[0].msg) else "";
    }
  }

  /** The timestamps of `es` never decrease from one entry to the next. */
  ghost predicate NonDecreasing(es: seq<TimedMsg>)
  {
    |es| <= 1 || (es[0].ts <= es[1].ts && NonDecreasing(es[1..]))
  }

  /** In order from one entry to the next is in order between any two entries. */
  lemma {:induction false} NonDecreasingPairs(es: seq<TimedMsg>)
    ensures NonDecreasing(es) <==> forall i, j :: 0 <= i < j < |es| ==> es[i].ts <= es[j].ts
  {
    if |es| > 1 {
      NonDecreasingPairs(es[1..]);
      if NonDecreasing(es) {
        forall i, j | 0 <= i < j < |es| ensures es[i].ts <= es[j].ts {
          if 0 < i {
            assert es[i] == es[1..][i - 1] && es[j] == es[1..][j - 1];
          } else if 1 < j {
            assert es[1] == es[1..][0] && es[j] == es[1..][j - 1];
          }
        }
      }
      if forall i, j :: 0 <= i < j < |es| ==> es[i].ts <= es[j].ts {
        forall i, j | 0 <= i < j < |es[1..]| ensures es[1..][i].ts <= es[1..][j].ts {
          assert es[1..][i] == es[i + 1] && es[1..][j] == es[j + 1];
        }
      }
    }
  }

  /** Dropping the oldest entries keeps the timestamps in order. */
  lemma {:induction false} NonDecreasingSuffix(es: seq<TimedMsg>, k: nat)
    requires k <= |es| && NonDecreasing(es)
    ensures NonDecreasing(es[k..])
    decreases k
  {
    if k == 0 {
      assert es[k..] == es;
    } else {
      NonDecreasingSuffix(es[1..], k - 1);
      assert es[1..][k - 1..] == es[k..];
    }
  }

  /** Every entry of an ordered sequence is not earlier than its first one. */
  lemma {:induction false} NonDecreasingFirst(es: seq<TimedMsg>)
    requires es != [] && NonDecreasing(es)
    ensures forall e :: e in es ==> es[0].ts <= e.ts
  {
    if |es| > 1 {
      NonDecreasingFirst(es[1..]);
      assert es == [es[0]] + es[1..];
    }
  }

  /**
   * The readable suffix `h[k..]` of a history `h` is scanned without loss
   * when it is in order, in particular when the whole history is.
   */
  lemma BetweenSortedSuffix(h: seq<TimedMsg>, k: nat, start: int, stop: int, fromRoom: string)
    requires k <= |h|
    ensures NonDecreasing(h) || NonDecreasing(h[k..]) ==>
      Between(h[k..], start, stop, fromRoom) == FormatAll(Window(h[k..], start, stop, fromRoom))
  {
    if NonDecreasing(h) {
      NonDecreasingSuffix(h, k);
    }
    if NonDecreasing(h[k..]) {
      BetweenSortedIsWindow(h[k..], start, stop, fromRoom);
    }
  }

  /**
   * The early `break` of messagesBetween is sound: when the timestamps are
   * in append order, the query renders every entry of the window
   * (start exclusive, stop inclusive) in the room, oldest first.
   */
  lemma {:induction false} BetweenSortedIsWindow(es: seq<TimedMsg>, start: int, stop: int, fromRoom: string)
    requires NonDecreasing(es)
    ensures Between(es, start, stop, fromRoom) == FormatAll(Window(es, start, stop, fromRoom))
  {
    if es != [] && stop < es[0].ts {
      WindowMembers(es, start, stop, fromRoom);
      NonDecreasingFirst(es);
      if Window(es, start, stop, fromRoom) != [] {
        assert Window(es, start, stop, fromRoom)[0] in Window(es, start, stop, fromRoom);
      }
    } else if es != [] {
      NonDecreasingSuffix(es, 1);
      BetweenSortedIsWindow(es[1..], start, stop, fromRoom);
      var head := if start < es[0].ts && Matches(fromRoom, es[0]) then [es[0]] else [];
      FormatAllAppend(head, Window(es[1..], start, stop, fromRoom));
    }
  }
}
