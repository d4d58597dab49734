/**
 * The chat messages the bank stores and the text line each one renders to
 * (main.go:13-16 and 72-75).
 */
module Messages {

  /** The fields of a devzat message that the extractor reads. */
  datatype Message = Message(room: string, from: string, data: string)

  /** A message together with the Unix second at which the bank received it. */
  datatype TimedMsg = TimedMsg(msg: Message, ts: int)

  /** The zero value Go gives to every slot of a freshly made bank. */
  const ZeroMsg := TimedMsg(Message("", "", ""), 0)

  /**
   * One line of an extract: the author, a colon and a space, the body
   * verbatim, then two spaces and a newline. The room is not rendered.
   */
  function FormatMsg(m: Message): (line: string)
  {
    m.from + ": " + m.data + "  \n"
  }

  /**
   * The layout of a line: the author, then ": ", then the body verbatim
   * (embedded newlines included), then "  \n".
   */
  lemma FormatMsgLayout(m: Message)
    ensures var line := FormatMsg(m);
      && |line| == |m.from| + |m.data| + 5
      && line[..|m.from|] == m.from
      && line[|m.from|..|m.from| + 2] == ": "
      && line[|m.from| + 2..|line| - 3] == m.data
      && line[|line| - 3..] == "  \n"
  {
  }

  /** The lines of `es`, in the order given, concatenated. */
  function FormatAll(es: seq<TimedMsg>): (text: string)
  {
    if es == [] then "" else FormatMsg(es[0].msg) + FormatAll(es[1..])
  }

  /** Formatting distributes over concatenation of entry sequences. */
  lemma {:induction false} FormatAllAppend(a: seq<TimedMsg>, b: seq<TimedMsg>)
    ensures FormatAll(a + b) == FormatAll(a) + FormatAll(b)
  {
    if a == [] {
      assert a + b == b;
    } else {
      assert (a + b)[0] == a[0] && (a + b)[1..] == a[1..] + b;
      FormatAllAppend(a[1..], b);
    }
  }
}
