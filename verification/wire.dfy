/** What the chat client writes to the socket, and the input row it draws. */
module Wire {
  import opened Wrappers
  import opened Terminal

  /** The label drawn at the start of the input row. */
  const PROMPT := "You: "
  /** The most characters `getstr` accepts for one chat line. */
  const INPUT_LIMIT := 50

  /** The first bytes sent after connecting: the nickname, nothing added. */
  function Handshake(nickname: string): string
  {
    nickname
  }

  /** An outgoing chat line: the nickname, a colon and a space, the text. */
  function Frame(nickname: string, text: string): (wire: string)
    ensures |wire| == |nickname| + 2 + |text|
    ensures wire[..|nickname|] == nickname && wire[|nickname|..|nickname| + 2] == ": "
    ensures wire[|nickname| + 2..] == text
  {
    nickname + ": " + text
  }

  /** Reads back the text of a frame sent under `nickname`, if `wire` is one. */
  function Unframe(nickname: string, wire: string): Option<string>
  {
    var n := |nickname| + 2;
    if |wire| >= n && wire[..n] == nickname + ": " then Some(wire[n..]) else None
  }

  /** Every frame reads back as the text it was built from. */
  lemma UnframeFrame(nickname: string, text: string)
    ensures Unframe(nickname, Frame(nickname, text)) == Some(text)
  {
    var w := Frame(nickname, text);
    assert w[..|nickname| + 2] == nickname + ": ";
  }

  /** Whatever reads back under `nickname` is exactly the frame of its text. */
  lemma FrameUnframe(nickname: string, wire: string, text: string)
    requires Unframe(nickname, wire) == Some(text)
    ensures wire == Frame(nickname, text)
  {
    var n := |nickname| + 2;
    assert wire == wire[..n] + wire[n..];
  }

  /** With one nickname, different texts give different frames. */
  lemma FrameInjective(nickname: string, a: string, b: string)
    requires Frame(nickname, a) == Frame(nickname, b)
    ensures a == b
  {
    UnframeFrame(nickname, a);
    UnframeFrame(nickname, b);
  }

  /** The frame for "rae" saying "hello". */
  lemma RaeSaysHello()
    ensures Frame("rae", "hello") == "rae: hello"
  {
  }

  /** There is no delimiter: a nickname holding ": " makes two different
      (nickname, text) pairs send the same bytes. */
  lemma FramesAmbiguous()
    ensures ("a: b", "c") != ("a", "b: c")
    ensures Frame("a: b", "c") == Frame("a", "b: c")
  {
  }

  /** The column where `getstr` echoes the typed line. */
  const INPUT_COLUMN := 5

  /** The "You: " label drawn at column 0 ends where the echo starts. */
  lemma PromptEndsAtInputColumn()
    ensures |PROMPT| == INPUT_COLUMN
  {
  }

  /** Columns of the input row blanked after a send, from column 0. */
  function ClearWidth(message: string): nat
  {
    INPUT_COLUMN + |message|
  }

  /** The chat session seen from the socket: the handshake, then one frame
      per line typed, each line cut to what `getstr` accepts; beside each
      frame, how many columns of the input row are blanked afterwards: the
      label and the echoed line, up to the end of the echo (the label ends at
      `INPUT_COLUMN`, see `PromptEndsAtInputColumn`). */
  method Chat(nickname: string, typed: seq<string>) returns (sent: seq<string>, cleared: seq<nat>)
    ensures |sent| == |typed| + 1 && sent[0] == nickname
    ensures |cleared| == |typed|
    ensures forall i :: 0 <= i < |typed| ==>
      Unframe(nickname, sent[i + 1]) == Some(Clip(typed[i], INPUT_LIMIT))
    ensures forall i :: 0 <= i < |typed| ==>
      cleared[i] == INPUT_COLUMN + |Clip(typed[i], INPUT_LIMIT)| <= INPUT_COLUMN + INPUT_LIMIT
  {
    sent, cleared := [Handshake(nickname)], [];
    for i := 0 to |typed|
      invariant |sent| == i + 1 && sent[0] == nickname
      invariant |cleared| == i
      invariant forall k :: 0 <= k < i ==>
        Unframe(nickname, sent[k + 1]) == Some(Clip(typed[k], INPUT_LIMIT))
      invariant forall k :: 0 <= k < i ==>
        cleared[k] == INPUT_COLUMN + |Clip(typed[k], INPUT_LIMIT)| <= INPUT_COLUMN + INPUT_LIMIT
    {
      var message := Clip(typed[i], INPUT_LIMIT);
      UnframeFrame(nickname, message);
      sent := sent + [Frame(nickname, message)];
      cleared := cleared + [ClearWidth(message)];
    }
  }
}
