/** The bounded log of received chat messages and the loop that fills it. */
module ChatLog {
  import opened Wrappers

  /** Entries the log may hold for a capacity of `LINES - 2`; a terminal
      with fewer than three rows leaves no room at all. */
  function Slots(capacity: int): nat
  {
    if capacity < 0 then 0 else capacity
  }

  /** `r` is what is left of `s` after dropping some of its first elements. */
  predicate IsSuffix(r: seq<string>, s: seq<string>)
  {
    |r| <= |s| && r == s[|s| - |r|..]
  }

  /** One received message: append it, then drop the oldest entry when the
      log is longer than the capacity. At most one entry is dropped, so the
      result is a suffix of `log + [message]` at least as long as `log`. */
  function Admit(log: seq<string>, capacity: int, message: string): (r: seq<string>)
    ensures |log| <= |r| <= |log| + 1
    ensures IsSuffix(r, log + [message])
    ensures |log| <= Slots(capacity) ==> |r| <= Slots(capacity)
  {
    var appended := log + [message];
    if |appended| > capacity then appended[1..] else appended
  }

  /** The log after `messages` arrive in order, starting from `log`. */
  function Feed(log: seq<string>, capacity: int, messages: seq<string>): seq<string>
    decreases |messages|
  {
    if messages == [] then log
    else Admit(Feed(log, capacity, messages[..|messages| - 1]), capacity, messages[|messages| - 1])
  }

  /** The most recent `n` elements of `s`, in their original order. */
  function LastN(s: seq<string>, n: nat): (r: seq<string>)
    ensures |r| == if |s| < n then |s| else n
    ensures r == s[|s| - |r|..]
  {
    if |s| <= n then s else s[|s| - n..]
  }

  /** With room for at least one entry, the new message is the newest entry,
      and the entries before it are the old log, less its oldest entry
      exactly when the log overflowed. */
  lemma AdmitKeepsNewest(log: seq<string>, capacity: int, message: string)
    requires capacity >= 1
    ensures var r := Admit(log, capacity, message);
      |r| >= 1 && r[|r| - 1] == message &&
      r[..|r| - 1] == if |log| + 1 > capacity then log[1..] else log
  {
    if |log| + 1 > capacity {
      assert (log + [message])[1..] == log[1..] + [message];
    }
  }

  /** With no room at all, every append is undone at once: the empty log
      stays empty. */
  lemma AdmitWithoutRoom(capacity: int, message: string)
    requires capacity <= 0
    ensures Admit([], capacity, message) == []
  {
    assert |Admit([], capacity, message)| == 0;
  }

  /** One step of the window: admitting `m` into the last `Slots(capacity)`
      entries of `s` gives the last `Slots(capacity)` entries of `s + [m]`. */
  lemma AdmitSlides(s: seq<string>, capacity: int, m: string)
    ensures Admit(LastN(s, Slots(capacity)), capacity, m) == LastN(s + [m], Slots(capacity))
  {
    var n := Slots(capacity);
    var w := LastN(s, n);
    var t := s + [m];
    if |s| >= n && n > 0 {
      assert w + [m] == t[|s| - n..];
      assert (w + [m])[1..] == t[|t| - n..];
    }
  }

  /** A log within its bound always shows the most recent messages: after
      any arrivals it holds exactly the last `Slots(capacity)` lines of the
      old log followed by the arrivals. */
  lemma {:induction false} FeedIsWindow(log: seq<string>, capacity: int, messages: seq<string>)
    requires |log| <= Slots(capacity)
    ensures Feed(log, capacity, messages) == LastN(log + messages, Slots(capacity))
    decreases |messages|
  {
    if messages == [] {
      assert log + messages == log;
    } else {
      var k := |messages| - 1;
      FeedIsWindow(log, capacity, messages[..k]);
      AdmitSlides(log + messages[..k], capacity, messages[k]);
      assert log + messages[..k] + [messages[k]] == log + messages;
    }
  }

  /** Starting empty, `N` arrivals leave `min(N, capacity)` entries, the
      latest ones in arrival order. */
  lemma FromEmpty(capacity: int, messages: seq<string>)
    requires capacity >= 0
    ensures var r := Feed([], capacity, messages);
      |r| == (if |messages| < capacity then |messages| else capacity) &&
      r == messages[|messages| - |r|..]
  {
    FeedIsWindow([], capacity, messages);
    assert [] + messages == messages;
  }

  /** Five slots and seven messages: the two oldest are gone. */
  lemma FiveSlotsSevenMessages()
    ensures Feed([], 5, ["m1", "m2", "m3", "m4", "m5", "m6", "m7"])
         == ["m3", "m4", "m5", "m6", "m7"]
  {
    FromEmpty(5, ["m1", "m2", "m3", "m4", "m5", "m6", "m7"]);
  }

  /** What one `recv` yields: a decoded frame, or a failure (the socket
      raised, or the bytes were not UTF-8). */
  datatype Incoming = Frame(text: string) | Broken

  /** The texts of the frames among `events`, in order. */
  function Texts(events: seq<Incoming>): seq<string>
    decreases |events|
  {
    if events == [] then []
    else Texts(events[..|events| - 1])
         + (match events[|events| - 1] case Frame(t) => [t] case Broken => [])
  }

  /** The `messages` list shared with the receiving thread; `capacity` is
      `LINES - 2` for the terminal the chat runs in. */
  class MessageLog {
    var entries: seq<string>
    const capacity: int

    /** The log never holds more entries than it has slots. */
    ghost predicate Valid()
      reads this
    {
      |entries| <= Slots(capacity)
    }

    constructor (lines: int)
      ensures capacity == lines - 2 && entries == [] && Valid()
    {
      capacity := lines - 2;
      entries := [];
    }

    /** `messages.append(message)`, then `messages.pop(0)` when the list
        is longer than `LINES - 2`. */
    method Receive(message: string)
      modifies this
      ensures entries == Admit(old(entries), capacity, message)
      ensures old(Valid()) ==> Valid()
    {
      entries := entries + [message];
      if |entries| > capacity {
        entries := entries[1..];
      }
    }

    /** The receiving thread: admit each frame as it arrives; at the first
        failure draw the error line at row `len(messages)`, close the
        socket and stop, leaving the rest of `events` unread. */
    method Run(events: seq<Incoming>) returns (handled: nat, errorRow: Option<nat>)
      modifies this
      ensures handled <= |events|
      ensures forall i :: 0 <= i < handled ==> events[i].Frame?
      ensures entries == Feed(old(entries), capacity, Texts(events[..handled]))
      ensures handled < |events| <==> errorRow.Some?
      ensures handled < |events| ==> events[handled].Broken? && errorRow == Some(|entries|)
      ensures old(Valid()) ==> Valid()
      ensures old(Valid()) ==>
        entries == LastN(old(entries) + Texts(events[..handled]), Slots(capacity))
    {
      handled, errorRow := 0, None;
      while handled < |events|
        invariant handled <= |events|
        invariant forall i :: 0 <= i < handled ==> events[i].Frame?
        invariant entries == Feed(old(entries), capacity, Texts(events[..handled]))
        invariant old(Valid()) ==> Valid()
      {
        match events[handled]
        case Broken =>
          errorRow := Some(|entries|);
          break;
        case Frame(message) =>
          assert events[..handled + 1][..handled] == events[..handled];
          Receive(message);
          handled := handled + 1;
      }
      if old(Valid()) {
        FeedIsWindow(old(entries), capacity, Texts(events[..handled]));
      }
    }
  }
}
