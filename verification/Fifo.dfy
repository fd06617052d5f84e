/** The log messages that a task's shell function sends through a pipe: NUL-terminated,
    read in chunks of any size. */
module Fifo {
  import opened Text

  const NUL := '\0'

  /** The terminated messages of a stream. */
  function Messages(s: string): seq<string> {
    var parts := Split(s, NUL);
    parts[..|parts| - 1]
  }

  /** What follows the last terminator. */
  function Rest(s: string): string {
    var parts := Split(s, NUL);
    parts[|parts| - 1]
  }

  lemma FirstMessage(m: string, s: string)
    requires NUL !in m
    ensures Messages(m + [NUL] + s) == [m] + Messages(s)
    ensures Rest(m + [NUL] + s) == Rest(s)
  {
    SplitStep(m, s, NUL);
    assert ([m] + Split(s, NUL))[..|Split(s, NUL)|] == [m] + Messages(s);
  }

  lemma NoMessage(s: string)
    requires NUL !in s
    ensures Messages(s) == [] && Rest(s) == s
  {
    SplitOfPlain(s, NUL);
  }

  /** The messages and the rest make up the stream. */
  lemma {:induction false} StreamIsMessages(s: string)
    ensures forall m | m in Messages(s) :: NUL !in m
    ensures NUL !in Rest(s)
    ensures s == Terminated(Messages(s)) + Rest(s)
    decreases |s|
  {
    JoinSplit(s, NUL);
    var parts := Split(s, NUL);
    var n := |parts| - 1;
    assert forall i | 0 <= i < |parts| :: parts[i] in parts;
    JoinTerminated(parts);
  }

  function Terminated(ms: seq<string>): string {
    if ms == [] then "" else ms[0] + [NUL] + Terminated(ms[1..])
  }

  lemma {:induction false} JoinTerminated(parts: seq<string>)
    requires parts != []
    ensures Join(parts, NUL) == Terminated(parts[..|parts| - 1]) + parts[|parts| - 1]
  {
    if |parts| > 1 {
      JoinTerminated(parts[1..]);
      var init := parts[..|parts| - 1];
      assert init[1..] == parts[1..][..|parts| - 2];
      assert Join(parts, NUL) == parts[0] + [NUL] + Join(parts[1..], NUL);
    }
  }

  /** More of the stream: what was kept is all of the past that matters. */
  lemma {:induction false} MoreOfStream(s: string, data: string)
    ensures Messages(s + data) == Messages(s) + Messages(Rest(s) + data)
    ensures Rest(s + data) == Rest(Rest(s) + data)
    decreases |s|
  {
    var i := FirstNul(s);
    if i == |s| {
      NoMessage(s);
    } else {
      var m, t := s[..i], s[i + 1..];
      assert s == m + [NUL] + t && s + data == m + [NUL] + (t + data);
      FirstMessage(m, t);
      FirstMessage(m, t + data);
      MoreOfStream(t, data);
    }
  }

  function FirstNul(s: string): (i: nat)
    ensures i <= |s| && NUL !in s[..i] && (i < |s| ==> s[i] == NUL)
  {
    if s == "" then 0
    else
      var n := |s| - 1;
      var i := FirstNul(s[..n]);
      assert s[..n][..i] == s[..i];
      if i < n then i else if s[n] == NUL then n else (assert s[..n + 1] == s[..n] + [s[n]]; n + 1)
  }

  class Reader {
    var buffer: string
    var dispatched: seq<string>

    constructor ()
      ensures buffer == "" && dispatched == []
    {
      buffer, dispatched := "", [];
    }

    /** `readfifo` */
    method ReadFifo(data: string)
      modifies this
      ensures dispatched == old(dispatched) + Messages(old(buffer) + data)
      ensures buffer == Rest(old(buffer) + data)
    {
      ghost var all := buffer + data;
      ghost var done: seq<string> := [];
      buffer := buffer + data;
      while buffer != ""
        invariant dispatched == old(dispatched) + done
        invariant Messages(all) == done + Messages(buffer) && Rest(all) == Rest(buffer)
        decreases |buffer|
      {
        var i := FirstNul(buffer);
        if i == |buffer| {
          NoMessage(buffer);
          break;
        }
        var message, nextmsg := buffer[..i], buffer[i + 1..];
        assert buffer == message + [NUL] + nextmsg;
        FirstMessage(message, nextmsg);
        assert done + ([message] + Messages(nextmsg)) == done + [message] + Messages(nextmsg);
        dispatched := dispatched + [message];
        done := done + [message];
        buffer := nextmsg;
      }
      NoMessage(buffer);
      assert done + [] == done;
    }

    /** However the stream is cut into chunks, its messages are dispatched in order and the rest is kept. */
    method ReadAll(chunks: seq<string>)
      requires buffer == "" && dispatched == []
      modifies this
      ensures dispatched == Messages(Flatten(chunks)) && buffer == Rest(Flatten(chunks))
    {
      NoMessage("");
      for i := 0 to |chunks|
        invariant dispatched == Messages(Flatten(chunks[..i])) && buffer == Rest(Flatten(chunks[..i]))
      {
        assert chunks[..i + 1][..i] == chunks[..i];
        MoreOfStream(Flatten(chunks[..i]), chunks[i]);
        ReadFifo(chunks[i]);
      }
      assert chunks[..|chunks|] == chunks;
    }
  }

  function Flatten(chunks: seq<string>): string {
    if chunks == [] then "" else Flatten(chunks[..|chunks| - 1]) + chunks[|chunks| - 1]
  }
}
