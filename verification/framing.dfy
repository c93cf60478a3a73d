/**
 * The text side of a read event: how the per-connection accumulator is cut
 * into complete lines, which lines are broadcast, and in what form.
 * Everything here is pure; the reactor's read handler is proved against it.
 */
module Framing {

  const NL: char := '\n'

  /** `String.indexOf(char)`: the first index of `c` in `s`, or -1. */
  function IndexOf(s: string, c: char): (r: int)
    ensures -1 <= r < |s|
    ensures r == -1 ==> forall k :: 0 <= k < |s| ==> s[k] != c
    ensures 0 <= r ==> s[r] == c && forall k :: 0 <= k < r ==> s[k] != c
  {
    if s == [] then -1
    else if s[0] == c then 0
    else
      var i := IndexOf(s[1..], c);
      if i == -1 then -1 else i + 1
  }

  /** The characters `String.trim()` strips: every code unit up to U+0020. */
  predicate IsSpace(c: char) {
    c <= ' '
  }

  /** A line that `trim()` turns into the empty string. */
  predicate Blank(s: string) {
    forall i :: 0 <= i < |s| ==> IsSpace(s[i])
  }

  /** The index of the first non-space at or after `i`: `trim()`'s forward scan. */
  function SkipSpaces(s: string, i: nat): (k: nat)
    requires i <= |s|
    ensures i <= k <= |s|
    ensures forall j :: i <= j < k ==> IsSpace(s[j])
    ensures k < |s| ==> !IsSpace(s[k])
    decreases |s| - i
  {
    if i == |s| || !IsSpace(s[i]) then i else SkipSpaces(s, i + 1)
  }

  /** One past the last non-space before `m`: `trim()`'s backward scan. */
  function DropSpaces(s: string, m: nat): (e: nat)
    requires m <= |s|
    ensures e <= m
    ensures forall j :: e <= j < m ==> IsSpace(s[j])
    ensures 0 < e ==> !IsSpace(s[e - 1])
  {
    if m == 0 || !IsSpace(s[m - 1]) then m else DropSpaces(s, m - 1)
  }

  /** `r` is what is left of `s` once `lo` characters are cut before it and
      the rest after it, every cut character being a space. */
  predicate SpaceCut(s: string, lo: int, r: string) {
    0 <= lo <= |s| - |r| && r == s[lo..lo + |r|]
    && (forall i :: 0 <= i < lo ==> IsSpace(s[i]))
    && (forall i :: lo + |r| <= i < |s| ==> IsSpace(s[i]))
  }

  /** `String.trim()`: cut the leading and the trailing spaces. */
  function Trim(s: string): string {
    var k := SkipSpaces(s, 0);
    if k == |s| then [] else s[k..DropSpaces(s, |s|)]
  }

  /** What `trim()` promises: the result is the infix of `s` left once
      leading and trailing spaces are cut, it neither starts nor ends with a
      space, and it is empty exactly when the line is blank. */
  lemma TrimCutsSpaces(s: string)
    ensures Trim(s) == [] <==> Blank(s)
    ensures Trim(s) != [] ==> !IsSpace(Trim(s)[0]) && !IsSpace(Trim(s)[|Trim(s)| - 1])
    ensures exists lo :: SpaceCut(s, lo, Trim(s))
  {
    var k := SkipSpaces(s, 0);
    if k == |s| {
      assert SpaceCut(s, 0, []);
    } else {
      var e := DropSpaces(s, |s|);
      assert SpaceCut(s, k, s[k..e]);
    }
  }

  /** A trimmed infix of a text with no newline has no newline either. */
  lemma TrimKeepsNoNewline(s: string)
    requires NL !in s
    ensures NL !in Trim(s)
  {
    TrimCutsSpaces(s);
    var lo :| SpaceCut(s, lo, Trim(s));
  }

  /** A text with no line terminator in it. */
  predicate NoNewline(s: string) {
    NL !in s
  }

  /** The complete lines of `s`, without their terminators, in the order their
      terminators occur. */
  function RawLines(s: string): (ls: seq<string>)
    decreases |s|
  {
    var i := IndexOf(s, NL);
    if i == -1 then [] else [s[..i]] + RawLines(s[i + 1..])
  }

  /** No complete line contains its terminator. */
  lemma {:induction false} LinesHaveNoNewline(s: string)
    ensures forall k :: 0 <= k < |RawLines(s)| ==> NoNewline(RawLines(s)[k])
    decreases |s|
  {
    if NL in s {
      var line, tail := Decompose(s);
      CutCons(line, tail);
      LinesHaveNoNewline(tail);
      assert RawLines(s) == [line] + RawLines(tail);
    } else {
      assert IndexOf(s, NL) == -1;
    }
  }

  /** What is left of `s` after its last complete line: never a newline. */
  function Rest(s: string): (r: string)
    ensures NL !in r && |r| <= |s|
    decreases |s|
  {
    var i := IndexOf(s, NL);
    if i == -1 then s else Rest(s[i + 1..])
  }

  /** Each line followed by its terminator, concatenated: the inverse of the
      cut. */
  function Unlines(ls: seq<string>): string {
    if ls == [] then [] else ls[0] + [NL] + Unlines(ls[1..])
  }

  /** Regrouping a concatenation, as a separate step: the proofs below that
      need it run out of resources when the regrouping is asserted inline
      next to the unfolded definitions. */
  lemma Associative<T>(a: seq<T>, b: seq<T>, c: seq<T>)
    ensures (a + b) + c == a + (b + c)
  {
  }

  /** A text with a newline is a newline-free line, that newline, and the
      text after it: `SplitAtFirst` with the split point left unnamed. */
  lemma Decompose(s: string) returns (line: string, tail: string)
    requires NL in s
    ensures NL !in line && s == line + [NL] + tail
  {
    SplitAtFirst(s);
    var i := IndexOf(s, NL);
    line, tail := s[..i], s[i + 1..];
  }

  /** One step of the cut: a newline-free line followed by a newline is cut
      off as the first line, and the cut goes on with the text after it. */
  lemma CutCons(line: string, tail: string)
    requires NL !in line
    ensures RawLines(line + [NL] + tail) == [line] + RawLines(tail)
    ensures Rest(line + [NL] + tail) == Rest(tail)
  {
    var s := line + [NL] + tail;
    assert s[|line|] == NL;
    assert IndexOf(s, NL) == |line|;
    assert s[..|line|] == line;
    assert s[|line| + 1..] == tail;
  }

  /** The lines and the remainder put back together give the input: nothing
      is lost, duplicated or reordered by the cut. */
  lemma {:induction false} Reassemble(s: string)
    ensures Unlines(RawLines(s)) + Rest(s) == s
    decreases |s|
  {
    if NL in s {
      var line, tail := Decompose(s);
      CutCons(line, tail);
      Reassemble(tail);
      assert Unlines([line] + RawLines(tail)) == line + [NL] + Unlines(RawLines(tail));
    }
  }

  /** `r` is the text after the last newline of `s`: a suffix of `s`,
      preceded by a newline unless it is all of `s`. */
  predicate AfterLastNewline(s: string, r: string) {
    |r| <= |s| && r == s[|s| - |r|..] && (|r| < |s| ==> s[|s| - |r| - 1] == NL)
  }

  lemma AfterLastNewlineCons(line: string, tail: string, r: string)
    requires AfterLastNewline(tail, r)
    ensures AfterLastNewline(line + [NL] + tail, r)
  {
    var s := line + [NL] + tail;
    assert s[|s| - |r|..] == tail[|tail| - |r|..];
    if |r| < |tail| {
      assert s[|s| - |r| - 1] == tail[|tail| - |r| - 1];
    }
  }

  /** The remainder is the text after the last newline. */
  lemma {:induction false} RestIsAfterLastNewline(s: string)
    ensures AfterLastNewline(s, Rest(s))
    decreases |s|
  {
    if NL in s {
      var line, tail := Decompose(s);
      CutCons(line, tail);
      RestIsAfterLastNewline(tail);
      AfterLastNewlineCons(line, tail, Rest(tail));
    } else {
      assert IndexOf(s, NL) == -1;
    }
  }

  /** The cut undoes `Unlines`: text made of newline-free lines and a
      newline-free tail is cut back into exactly those lines and that tail. */
  lemma {:induction false} CutUnlines(ls: seq<string>, tail: string)
    requires forall k :: 0 <= k < |ls| ==> NoNewline(ls[k])
    requires NL !in tail
    ensures RawLines(Unlines(ls) + tail) == ls
    ensures Rest(Unlines(ls) + tail) == tail
  {
    if ls == [] {
      assert Unlines(ls) + tail == tail;
    } else {
      var more := Unlines(ls[1..]) + tail;
      Associative(ls[0] + [NL], Unlines(ls[1..]), tail);
      CutCons(ls[0], more);
      CutUnlines(ls[1..], tail);
      assert ls == [ls[0]] + ls[1..];
    }
  }

  /** Appending more text never changes the lines already complete: the cut
      of `a + b` is the cut of `a` followed by the cut of its remainder
      continued with `b`. */
  lemma {:induction false} CutAppend(a: string, b: string)
    ensures RawLines(a + b) == RawLines(a) + RawLines(Rest(a) + b)
    ensures Rest(a + b) == Rest(Rest(a) + b)
    decreases |a|
  {
    if NL in a {
      var line, tail := Decompose(a);
      assert a + b == line + [NL] + (tail + b);
      CutCons(line, tail);
      CutCons(line, tail + b);
      CutAppend(tail, b);
      Associative([line], RawLines(tail), RawLines(Rest(tail) + b));
    } else {
      assert IndexOf(a, NL) == -1;
      assert RawLines(a) == [] && Rest(a) == a;
      assert RawLines(a) + RawLines(Rest(a) + b) == RawLines(a + b);
    }
  }

  /** The line a recipient receives for `line` from `address` (source line 101). */
  function Format(address: string, line: string): string {
    "[" + address + "] " + line + [NL]
  }

  /** A formatted message is exactly one line on the wire: the receiving side's
      cut yields the prefixed text and leaves nothing pending. */
  lemma FormatIsOneLine(address: string, line: string)
    requires NL !in address && NL !in line
    ensures RawLines(Format(address, line)) == ["[" + address + "] " + line]
    ensures Rest(Format(address, line)) == []
  {
    var body := "[" + address + "] " + line;
    assert Format(address, line) == body + [NL] + [];
    CutCons(body, []);
  }

  /** What one complete line contributes: nothing when it is blank, else its
      trimmed text formatted with the sender's address. */
  function Emit(address: string, line: string): seq<string> {
    var t := Trim(line);
    if t == [] then [] else [Format(address, t)]
  }

  /** The messages broadcast for a sequence of complete lines, in order. */
  function Outgoing(address: string, lines: seq<string>): (ms: seq<string>)
    ensures |ms| <= |lines|
  {
    if lines == [] then [] else Emit(address, lines[0]) + Outgoing(address, lines[1..])
  }

  /** The messages one read event broadcasts when the accumulator holds `s`. */
  function Messages(address: string, s: string): seq<string> {
    Outgoing(address, RawLines(s))
  }

  /** The text up to the first newline, that newline, and the text after it. */
  lemma SplitAtFirst(s: string)
    requires NL in s
    ensures var i := IndexOf(s, NL);
            NL !in s[..i] && s == s[..i] + [NL] + s[i + 1..]
  {
    var i := IndexOf(s, NL);
    assert s == s[..i] + [s[i]] + s[i + 1..];
  }

  /** A newline-free line followed by a newline yields that line's message
      (or none), and the text after it yields the rest. */
  lemma MessagesCons(address: string, line: string, tail: string)
    requires NL !in line
    ensures Messages(address, line + [NL] + tail) == Emit(address, line) + Messages(address, tail)
  {
    CutCons(line, tail);
    var ls := [line] + RawLines(tail);
    assert ls[0] == line && ls[1..] == RawLines(tail);
  }

  /** One turn of the read handler's loop: the first complete line yields its
      message (or none), and the text after its newline yields the rest. */
  lemma MessagesStep(address: string, s: string)
    requires IndexOf(s, NL) != -1
    ensures var i := IndexOf(s, NL);
            Messages(address, s) == Emit(address, s[..i]) + Messages(address, s[i + 1..])
            && Rest(s) == Rest(s[i + 1..])
  {
    var i := IndexOf(s, NL);
    var line, tail := s[..i], s[i + 1..];
    SplitAtFirst(s);
    CutCons(line, tail);
    MessagesCons(address, line, tail);
  }

  /** The messages already sent, then one line's message (or none), then
      more. */
  lemma EmitAfter(address: string, sent: seq<string>, line: string, more: seq<string>)
    ensures var t := Trim(line);
            sent + (Emit(address, line) + more)
              == (if t == [] then sent else sent + [Format(address, t)]) + more
  {
    var e := Emit(address, line);
    Associative(sent, e, more);
    if Trim(line) == [] {
      assert sent + e == sent;
    }
  }

  /** The read handler's loop invariant is kept by one turn: with the
      messages already broadcast in `sent`, cutting the first line off `s` and
      broadcasting it unless blank leaves the same total still to come. */
  lemma FrameStep(address: string, s: string, sent: seq<string>)
    requires IndexOf(s, NL) != -1
    ensures var i := IndexOf(s, NL);
            var t := Trim(s[..i]);
            sent + Messages(address, s)
              == (if t == [] then sent else sent + [Format(address, t)]) + Messages(address, s[i + 1..])
            && Rest(s) == Rest(s[i + 1..])
  {
    var i := IndexOf(s, NL);
    MessagesStep(address, s);
    EmitAfter(address, sent, s[..i], Messages(address, s[i + 1..]));
  }

  /** Text without a newline yields no message and is kept whole. */
  lemma MessagesNone(address: string, s: string)
    requires IndexOf(s, NL) == -1
    ensures Messages(address, s) == [] && Rest(s) == s
  {
  }

  lemma {:induction false} OutgoingAppend(address: string, xs: seq<string>, ys: seq<string>)
    ensures Outgoing(address, xs + ys) == Outgoing(address, xs) + Outgoing(address, ys)
  {
    if xs == [] {
      assert xs + ys == ys;
    } else {
      assert (xs + ys)[0] == xs[0];
      assert (xs + ys)[1..] == xs[1..] + ys;
      OutgoingAppend(address, xs[1..], ys);
      Associative(Emit(address, xs[0]), Outgoing(address, xs[1..]), Outgoing(address, ys));
    }
  }

  /** Blank-line suppression and exactly-once delivery: a line yields one
      message when its trimmed text is non-empty, and none when it is blank. */
  lemma OutgoingOne(address: string, line: string)
    ensures Outgoing(address, [line]) ==
            if Blank(line) then [] else [Format(address, Trim(line))]
  {
    TrimCutsSpaces(line);
    assert [line][1..] == [];
  }

  /** The lines that are not blank, in order. */
  function NonBlank(lines: seq<string>): seq<string> {
    if lines == [] then []
    else (if Blank(lines[0]) then [] else [lines[0]]) + NonBlank(lines[1..])
  }

  /** The kept lines are exactly the lines that are not blank: none of them
      is blank, and every line not blank is kept. */
  lemma {:induction false} NonBlankKeeps(lines: seq<string>)
    ensures forall k :: 0 <= k < |NonBlank(lines)| ==> !Blank(NonBlank(lines)[k])
    ensures forall k :: 0 <= k < |lines| && !Blank(lines[k]) ==> lines[k] in NonBlank(lines)
    ensures forall k :: 0 <= k < |NonBlank(lines)| ==> NonBlank(lines)[k] in lines
  {
    if lines != [] {
      NonBlankKeeps(lines[1..]);
      var head := if Blank(lines[0]) then [] else [lines[0]];
      assert NonBlank(lines) == head + NonBlank(lines[1..]);
      forall k | 0 <= k < |NonBlank(lines)|
        ensures NonBlank(lines)[k] in lines
      {
        if k >= |head| {
          var l := NonBlank(lines[1..])[k - |head|];
          assert NonBlank(lines)[k] == l;
          var j :| 0 <= j < |lines[1..]| && lines[1..][j] == l;
          assert lines[j + 1] == l;
        }
      }
      forall k | 0 <= k < |lines| && !Blank(lines[k])
        ensures lines[k] in NonBlank(lines)
      {
        if k > 0 {
          assert lines[k] == lines[1..][k - 1];
        }
      }
    }
  }

  /** Outgoing is filter-then-map: drop the blank lines, then trim and format
      each remaining one; so there is exactly one message per non-blank line. */
  lemma {:induction false} OutgoingIsFilterMap(address: string, lines: seq<string>)
    ensures |Outgoing(address, lines)| == |NonBlank(lines)|
    ensures forall k :: 0 <= k < |NonBlank(lines)| ==>
              Outgoing(address, lines)[k] == Format(address, Trim(NonBlank(lines)[k]))
  {
    if lines != [] {
      var l, rest := lines[0], lines[1..];
      OutgoingIsFilterMap(address, rest);
      TrimCutsSpaces(l);
      var out, kept := Outgoing(address, rest), NonBlank(rest);
      assert Outgoing(address, lines) == Emit(address, l) + out;
      if Blank(l) {
        assert NonBlank(lines) == kept;
        assert Outgoing(address, lines) == out;
      } else {
        var m := Format(address, Trim(l));
        assert NonBlank(lines) == [l] + kept;
        assert Outgoing(address, lines) == [m] + out;
        forall k | 0 < k < |NonBlank(lines)|
          ensures Outgoing(address, lines)[k] == Format(address, Trim(NonBlank(lines)[k]))
        {
          assert ([m] + out)[k] == out[k - 1];
          assert ([l] + kept)[k] == kept[k - 1];
        }
      }
    }
  }
  /** Every message a read broadcasts, from a connection whose address has no
      newline, is exactly one line on the receiving side: the cut yields the
      message without its final newline, and nothing is left pending. */
  lemma MessagesAreLines(address: string, s: string)
    requires NL !in address
    ensures forall k :: 0 <= k < |Messages(address, s)| ==>
              var m := Messages(address, s)[k];
              |m| > 0 && RawLines(m) == [m[..|m| - 1]] && Rest(m) == []
  {
    var ls := RawLines(s);
    OutgoingIsFilterMap(address, ls);
    NonBlankKeeps(ls);
    LinesHaveNoNewline(s);
    forall k | 0 <= k < |Messages(address, s)|
      ensures var m := Messages(address, s)[k];
              |m| > 0 && RawLines(m) == [m[..|m| - 1]] && Rest(m) == []
    {
      var l := NonBlank(ls)[k];
      var j :| 0 <= j < |ls| && ls[j] == l;
      assert NoNewline(ls[j]);
      TrimKeepsNoNewline(l);
      var t := Trim(l);
      FormatIsOneLine(address, t);
      var m := Format(address, t);
      assert m[..|m| - 1] == "[" + address + "] " + t;
    }
  }


  /** Split invariance for one extra read: framing `acc + a` and then the
      remainder continued with `b` broadcasts the same messages, and keeps the
      same remainder, as framing `acc + a + b` in one pass. */
  lemma SplitRead(address: string, acc: string, a: string, b: string)
    ensures Messages(address, acc + a) + Messages(address, Rest(acc + a) + b)
            == Messages(address, acc + a + b)
    ensures Rest(Rest(acc + a) + b) == Rest(acc + a + b)
  {
    CutAppend(acc + a, b);
    OutgoingAppend(address, RawLines(acc + a), RawLines(Rest(acc + a) + b));
  }

  /** The result of feeding successive reads to one connection's framer. */
  datatype Framed = Framed(messages: seq<string>, rest: string)

  /** Framing read after read: each read's text is appended to the remainder
      the previous read left, its messages are broadcast, its remainder kept. */
  function Feed(address: string, acc: string, events: seq<string>): Framed
    decreases |events|
  {
    if events == [] then Framed([], acc)
    else
      var s := acc + events[0];
      var f := Feed(address, Rest(s), events[1..]);
      Framed(Messages(address, s) + f.messages, f.rest)
  }

  /** The concatenation of a sequence of texts. */
  function Concat(events: seq<string>): string {
    if events == [] then [] else events[0] + Concat(events[1..])
  }

  /** Split invariance: however a character stream is split across read events,
      a connection whose accumulator holds no complete line broadcasts the same
      messages in the same order, and keeps the same remainder, as if the whole
      stream had arrived in one read. */
  lemma {:induction false} FeedIsOnePass(address: string, acc: string, events: seq<string>)
    requires NL !in acc
    ensures Feed(address, acc, events)
            == Framed(Messages(address, acc + Concat(events)), Rest(acc + Concat(events)))
    decreases |events|
  {
    if events == [] {
      assert acc + Concat(events) == acc;
      assert IndexOf(acc, NL) == -1;
      assert RawLines(acc) == [] && Rest(acc) == acc;
    } else {
      var s := acc + events[0];
      var more := Concat(events[1..]);
      FeedIsOnePass(address, Rest(s), events[1..]);
      SplitRead(address, acc, events[0], more);
      Associative(acc, events[0], more);
      assert Concat(events) == events[0] + more;
    }
  }
}
