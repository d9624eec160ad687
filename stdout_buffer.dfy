/** The line buffer between the compiled program's `puts` and the host's `stdout`
    (compiler.mjs:4-23): text is held back until a newline arrives, so the host sees whole
    lines only, as it would from a native program. */
module StdoutBuffer {

  /** `s.lastIndexOf(c)`: the index of the last c in s, or -1 when there is none. */
  function LastIndexOf(s: string, c: char): (i: int)
    ensures -1 <= i < |s|
    ensures i >= 0 ==> s[i] == c
    ensures forall k :: i < k < |s| ==> s[k] != c
  {
    if s == [] then -1
    else if s[|s| - 1] == c then |s| - 1
    else LastIndexOf(s[..|s| - 1], c)
  }

  /** All the strings of a log, one after another. */
  function Concat(log: seq<string>): string
  {
    if log == [] then "" else Concat(log[..|log| - 1]) + log[|log| - 1]
  }

  lemma ConcatAppend(log: seq<string>, s: string)
    ensures Concat(log + [s]) == Concat(log) + s
  {
    assert (log + [s])[..|log|] == log;
  }

  /** Cutting a text just after its last newline: the head is the text up to and including
      that newline, the tail holds no newline, and together they are the text again. */
  lemma {:induction false} SplitAfterLastNewline(all: string)
    requires LastIndexOf(all, '\n') >= 0
    ensures var i := LastIndexOf(all, '\n');
      && all[..i + 1] + all[i + 1..] == all
      && |all[..i + 1]| > 0 && all[..i + 1][i] == '\n'
      && '\n' !in all[i + 1..]
  {
    var i := LastIndexOf(all, '\n');
    assert all[..i + 1] + all[i + 1..] == all;
    var tail := all[i + 1..];
    forall k | 0 <= k < |tail|
      ensures tail[k] != '\n'
    {
      assert tail[k] == all[i + 1 + k];
    }
  }

  /** Passing a head of the held text on and keeping the tail loses and reorders nothing. */
  lemma PassOn(log: seq<string>, held: string, lines: string, rest: string)
    requires lines + rest == held
    ensures Concat(log + [lines]) + rest == Concat(log) + held
  {
    ConcatAppend(log, lines);
    assert Concat(log) + lines + rest == Concat(log) + (lines + rest);
  }

  /** The module-level `buffer`, with the calls of the `stdout` callback kept as a log. */
  class LineBuffer {
    /** The text received but not yet passed on. */
    var buffer: string
    /** The strings passed to `stdout`, in order. */
    var emitted: seq<string>
    /** Everything `bufferedPuts` has received. */
    ghost var received: string

    /** Nothing is lost or reordered: what was passed on, then what is held back, is exactly
        what was received. */
    ghost predicate Valid()
      reads this
    {
      Concat(emitted) + buffer == received
    }

    /** `let buffer = "";` */
    constructor ()
      ensures Valid() && buffer == "" && emitted == [] && received == ""
    {
      buffer := "";
      emitted := [];
      received := "";
    }

    /** bufferedPuts (compiler.mjs:5-15): the text up to and including the last newline, if
        there is one, goes to `stdout` in one call; the rest stays in the buffer. */
    method BufferedPuts(chars: string)
      requires Valid()
      modifies this
      ensures Valid() && received == old(received) + chars
      ensures '\n' !in buffer
      ensures var all := old(buffer) + chars; var i := LastIndexOf(all, '\n');
        if i < 0 then emitted == old(emitted) && buffer == all
        else emitted == old(emitted) + [all[..i + 1]] && buffer == all[i + 1..]
      ensures forall k :: |old(emitted)| <= k < |emitted| ==> |emitted[k]| > 0 && emitted[k][|emitted[k]| - 1] == '\n'
      ensures |emitted| <= |old(emitted)| + 1
    {
      assert Concat(emitted) + (buffer + chars) == received + chars;
      received := received + chars;
      buffer := buffer + chars;
      var index := LastIndexOf(buffer, '\n');
      if index != -1 {
        var lines := buffer[..index + 1];
        SplitAfterLastNewline(buffer);
        PassOn(emitted, buffer, lines, buffer[index + 1..]);
        emitted := emitted + [lines];
        buffer := buffer[index + 1..];
      }
    }

    /** flushStdout (compiler.mjs:18-23): a non-empty buffer goes to `stdout` in one call and
        is emptied; an empty one is left alone and nothing is called, so a second flush is a
        no-op. */
    method FlushStdout()
      requires Valid()
      modifies this
      ensures Valid() && received == old(received) && buffer == ""
      ensures old(buffer) != "" ==> emitted == old(emitted) + [old(buffer)]
      ensures old(buffer) == "" ==> emitted == old(emitted)
    {
      if buffer != "" {
        ConcatAppend(emitted, buffer);
        emitted := emitted + [buffer];
        buffer := "";
      }
    }
  }
}
