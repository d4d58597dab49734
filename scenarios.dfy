/**
 * Small concrete runs of the bank, including the off-by-one read bound, the
 * count-back query keeping the oldest matches, and the time-window scan
 * stopping at an out-of-order timestamp.
 */
module Scenarios {
  import opened Wrappers
  import opened Messages
  import opened Queries
  import opened Bank

  function Msg(room: string, from: string, data: string, ts: int): TimedMsg
  {
    TimedMsg(Message(room, from, data), ts)
  }

  /**
   * Capacity 3, three appends: only the two latest are readable, so asking
   * for two messages of room "a" yields just the latest one.
   */
  method CountBackCapacityThree() returns (text: string, all: string)
    ensures text == "u1: bye  \n"
    ensures all == "u2: yo  \nu1: bye  \n"
  {
    var bank := new MessageBank(3);
    bank.AddMessage(Msg("a", "u1", "hi", 1));
    bank.AddMessage(Msg("b", "u2", "yo", 2));
    bank.AddMessage(Msg("a", "u1", "bye", 3));
    assert bank.Readable() == [Msg("b", "u2", "yo", 2), Msg("a", "u1", "bye", 3)];
    text := bank.CompilePreviousMsg(2, "a");
    all := bank.CompilePreviousMsg(10, "");
    LatestTwoOfCapacityThree();
  }

  /** The count-back texts of the two readable messages of that scenario. */
  lemma LatestTwoOfCapacityThree()
    ensures var s := [Msg("b", "u2", "yo", 2), Msg("a", "u1", "bye", 3)];
      && CountBack(s, 2, "a") == "u1: bye  \n"
      && CountBack(s, 10, "") == "u2: yo  \nu1: bye  \n"
  {
    var yo, bye := Msg("b", "u2", "yo", 2), Msg("a", "u1", "bye", 3);
    assert [yo, bye][1..] == [bye] && [bye][1..] == [];
    assert FormatMsg(yo.msg) == "u2: yo  \n" && FormatMsg(bye.msg) == "u1: bye  \n";
  }

  /**
   * Capacity 3, four appends: the first message is overwritten, and age 2
   * is out of the readable range.
   */
  method EvictionCapacityThree() returns (r0: Option<TimedMsg>, r1: Option<TimedMsg>, r2: Option<TimedMsg>)
    ensures r0 == Some(Msg("a", "u", "4", 4))
    ensures r1 == Some(Msg("a", "u", "3", 3))
    ensures r2 == None
  {
    var bank := new MessageBank(3);
    bank.AddMessage(Msg("a", "u", "1", 1));
    bank.AddMessage(Msg("a", "u", "2", 2));
    bank.AddMessage(Msg("a", "u", "3", 3));
    bank.AddMessage(Msg("a", "u", "4", 4));
    assert bank.msgs[0] == Msg("a", "u", "4", 4);
    r0 := bank.ReadNthPreviousMsg(0);
    r1 := bank.ReadNthPreviousMsg(1);
    r2 := bank.ReadNthPreviousMsg(2);
  }

  /** With a budget of two, the two OLDEST of three matches are returned. */
  method CountBackKeepsOldestRun() returns (text: string)
    ensures text == "u: 1  \nu: 2  \n"
  {
    var bank := new MessageBank(4);
    bank.AddMessage(Msg("a", "u", "1", 1));
    bank.AddMessage(Msg("a", "u", "2", 2));
    bank.AddMessage(Msg("a", "u", "3", 3));
    assert bank.Readable() == [Msg("a", "u", "1", 1), Msg("a", "u", "2", 2), Msg("a", "u", "3", 3)];
    text := bank.CompilePreviousMsg(2, "a");
    OldestTwoOfThree();
  }

  /** The count-back text of three matches of room "a" with a budget of two. */
  lemma OldestTwoOfThree()
    ensures CountBack([Msg("a", "u", "1", 1), Msg("a", "u", "2", 2), Msg("a", "u", "3", 3)], 2, "a") == "u: 1  \nu: 2  \n"
  {
    var m1, m2, m3 := Msg("a", "u", "1", 1), Msg("a", "u", "2", 2), Msg("a", "u", "3", 3);
    assert [m1, m2, m3][1..] == [m2, m3] && [m2, m3][1..] == [m3];
    assert FormatMsg(m1.msg) == "u: 1  \n" && FormatMsg(m2.msg) == "u: 2  \n";
    assert CountBack([m3], 0, "a") == "";
  }

  /**
   * Out-of-order timestamps: the scan stops at the first message later than
   * the window, so a later in-window message is dropped.
   */
  method BreakDropsLateOrder() returns (text: string)
    ensures text == "u: early  \n"
  {
    var bank := new MessageBank(4);
    bank.AddMessage(Msg("a", "u", "early", 5));
    bank.AddMessage(Msg("a", "u", "late", 20));
    bank.AddMessage(Msg("a", "u", "inside", 7));
    assert bank.Readable() == [Msg("a", "u", "early", 5), Msg("a", "u", "late", 20), Msg("a", "u", "inside", 7)];
    text := bank.MessagesBetween(0, 10, "a");
    BreakText();
  }

  /** The time-window text of that scenario. */
  lemma BreakText()
    ensures Between([Msg("a", "u", "early", 5), Msg("a", "u", "late", 20), Msg("a", "u", "inside", 7)], 0, 10, "a")
      == "u: early  \n"
  {
    var early, late, inside := Msg("a", "u", "early", 5), Msg("a", "u", "late", 20), Msg("a", "u", "inside", 7);
    assert [early, late, inside][1..] == [late, inside];
    assert FormatMsg(early.msg) == "u: early  \n";
  }
}
