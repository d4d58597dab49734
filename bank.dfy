/**
 * The message bank of main.go:18-70 and 101-119: a circular buffer of the
 * latest timed messages, written at slot `index % size`, read back by age.
 */
module Bank {
  import opened Wrappers
  import opened Messages
  import opened Queries

  class MessageBank {
    const size: nat
    var index: nat
    const msgs: array<TimedMsg>

    /** Every message appended so far, oldest first. */
    ghost var appended: seq<TimedMsg>

    /**
     * The object invariant: `index` counts the appends, and each of the
     * latest `size` appended messages still sits in its slot.
     */
    ghost predicate Valid()
      reads this, msgs
    {
      && msgs.Length == size
      && index == |appended|
      && forall k :: 0 <= k < index && index - k <= size ==> Stored(k)
    }

    /** The k-th appended message sits in its slot. */
    ghost predicate Stored(k: nat)
      reads this, msgs
    {
      0 < size == msgs.Length && k < |appended| && msgs[k % size] == appended[k]
    }

    /** makeBank: an empty bank with `size` zero-valued slots. */
    constructor (size: nat)
      ensures Valid()
      ensures this.size == size && index == 0 && appended == []
      ensures fresh(msgs) && msgs.Length == size
      ensures forall j :: 0 <= j < size ==> msgs[j] == ZeroMsg
      ensures forall n: nat :: ReadNthPreviousMsg(n) == None
    {
      this.size := size;
      index := 0;
      msgs := new TimedMsg[size](_ => ZeroMsg);
      appended := [];
    }

    /**
     * readNthPreviousMsg: the n-th latest message (0 is the latest), or None.
     * As written, an age is readable only while n + 1 < size, so at most
     * size - 1 messages are ever readable.
     */
    function ReadNthPreviousMsg(n: nat): (r: Option<TimedMsg>)
      reads this, msgs
      requires Valid()
      ensures r.Some? <==> n + 1 < size && n + 1 <= index
      ensures r.Some? ==> r.value == appended[|appended| - 1 - n]
    {
      var age := n + 1;
      if age >= size then None
      else if index - age < 0 then None
      else assert Stored(index - age); Some(msgs[(index - age) % size])
    }

    /** How many ages are readable: min(index, size - 1), and 0 for an empty bank. */
    function ReadableCount(): (c: nat)
      reads this
      ensures c <= index
      ensures size > 0 ==> c < size
    {
      if size == 0 then 0 else if index < size - 1 then index else size - 1
    }

    /**
     * The readable messages, oldest first: the latest ReadableCount()
     * messages appended, each of which a read by age returns.
     */
    ghost function Readable(): (s: seq<TimedMsg>)
      reads this, msgs
      requires Valid()
      ensures |s| == ReadableCount()
      ensures forall n: nat :: n < |s| ==> ReadNthPreviousMsg(n) == Some(s[|s| - 1 - n])
      ensures forall n: nat :: |s| <= n ==> ReadNthPreviousMsg(n) == None
    {
      appended[index - ReadableCount()..]
    }

    /**
     * addMessage: overwrite slot `index % size` with `msg` and count the
     * append; no other slot changes. The message is then the latest one.
     */
    method AddMessage(msg: TimedMsg)
      requires Valid()
      requires size > 0
      modifies this, msgs
      ensures Valid()
      ensures index == old(index) + 1 && appended == old(appended) + [msg]
      ensures msgs[old(index) % size] == msg
      ensures forall j :: 0 <= j < size && j != old(index) % size ==> msgs[j] == old(msgs[j])
      ensures size >= 2 ==> ReadNthPreviousMsg(0) == Some(msg)
      ensures forall n: nat :: 0 < n ==> ReadNthPreviousMsg(n) == old(if n + 1 < size then ReadNthPreviousMsg(n - 1) else None)
    {
      msgs[index % size] := msg;
      index := index + 1;
      appended := appended + [msg];
      forall k | 0 <= k < index && index - k <= size
        ensures Stored(k)
      {
        if k < index - 1 {
          SlotsDiffer(k, index - 1, size);
          assert old(Stored(k));
        }
      }
    }

    /**
     * compilePreviousMsg: scan the ages from the oldest down to 0 and render
     * up to `count` messages of the room, oldest first.
     */
    method CompilePreviousMsg(count: int, fromRoom: string) returns (ret: string)
      requires Valid()
      ensures ret == CountBack(Readable(), count, fromRoom)
      ensures var matched := InRoom(Readable(), fromRoom);
        ret == FormatAll(matched[..Clamp(count, |matched|)])
    {
      ghost var s := Readable();
      ghost var r := |s|;
      ghost var p := 0;
      ret := "";
      var budget := count;
      var i: int := size - 1;
      while i >= 0 && budget > 0
        invariant -1 <= i < size
        invariant p == if i < r then r - 1 - i else 0
        invariant ret + CountBackFrom(s, p, budget, fromRoom) == CountBackFrom(s, 0, count, fromRoom)
      {
        var msg := ReadNthPreviousMsg(i);
        if msg.None? {
          assert r <= i;
        } else {
          assert i < r && msg.value == s[p];
        }
        if msg.Some? && (fromRoom == "" || msg.value.msg.room == fromRoom) {
          ret := ret + FormatMsg(msg.value.msg);
          budget := budget - 1;
        }
        if msg.Some? {
          p := p + 1;
        }
        i := i - 1;
      }
      CountBackFromSuffix(s, 0, count, fromRoom);
      assert s[0..] == s;
      CountBackKeepsOldest(s, count, fromRoom);
    }

    /**
     * messagesBetween: scan the ages from the oldest down to 0, stop at the
     * first message later than `stop`, and render the messages later than
     * `start` that are in the room, oldest first.
     */
    method MessagesBetween(start: int, stop: int, fromRoom: string) returns (ret: string)
      requires Valid()
      ensures ret == Between(Readable(), start, stop, fromRoom)
      ensures NonDecreasing(Readable()) ==> ret == FormatAll(Window(Readable(), start, stop, fromRoom))
      ensures NonDecreasing(appended) ==> ret == FormatAll(Window(Readable(), start, stop, fromRoom))
    {
      ghost var s := Readable();
      ghost var r := |s|;
      ghost var p := 0;
      ret := "";
      for i := size downto 0
        invariant p == if i <= r then r - i else 0
        invariant ret + BetweenFrom(s, p, start, stop, fromRoom) == BetweenFrom(s, 0, start, stop, fromRoom)
      {
        var msg := ReadNthPreviousMsg(i);
        if msg.None? {
          continue;
        }
        assert i < r && msg.value == s[p];
        BetweenFromStep(ret, s, p, start, stop, fromRoom);
        p := p + 1;
        if stop < msg.value.ts {
          assert ret == BetweenFrom(s, 0, start, stop, fromRoom);
          break;
        }
        if start < msg.value.ts {
          if fromRoom == "" || fromRoom == msg.value.msg.room {
            ret := ret + FormatMsg(msg.value.msg);
          }
        }
      }
      BetweenFromSuffix(s, 0, start, stop, fromRoom);
      assert s[0..] == s;
      BetweenSortedSuffix(appended, index - r, start, stop, fromRoom);
    }
  }

  /** Two of the latest `size` appends never share a slot. */
  lemma SlotsDiffer(k: nat, j: nat, size: nat)
    requires k < j < k + size
    ensures k % size != j % size
  {
    var t := j / size - k / size;
    assert j - k == t * size + (j % size - k % size);
    MulBounds(t, size);
  }

  /** The two sign facts about a product with a natural factor that SlotsDiffer needs. */
  lemma MulBounds(t: int, m: nat)
    ensures t <= 0 ==> t * m <= 0
    ensures t >= 1 ==> t * m >= m
  {
  }
}
