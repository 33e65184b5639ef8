/** The diagnostics of the XML validator and the text they are printed as:
    `"Error at line: " + lineNumber + " " + message` for one diagnostic, and
    for the whole report either the success sentence or every diagnostic
    followed by a line break. */
module Diagnostics {
  import opened Seqs

  /** A diagnostic before it is written out: the line it is about and the
      message text. */
  datatype Message = Message(lineNumber: int, text: string)

  /** The report of a document without diagnostics. */
  const Success := "XML document is constructed correctly."

  /** The text every diagnostic starts with. */
  const Prefix := "Error at line: "

  /** The decimal digit for `d`. */
  function DigitChar(d: nat): (c: char)
    requires d < 10
    ensures '0' <= c <= '9' && c as int - '0' as int == d
  {
    ('0' as int + d) as char
  }

  /** `n` in decimal, as Java's string concatenation writes an `int`. */
  function NatToString(n: nat): (s: string)
    ensures |s| >= 1
    ensures forall i :: 0 <= i < |s| ==> '0' <= s[i] <= '9'
    decreases n
  {
    if n < 10 then [DigitChar(n)] else NatToString(n / 10) + [DigitChar(n % 10)]
  }

  /** The value of a string of decimal digits. */
  function ParseDigits(s: string): nat
    requires forall i :: 0 <= i < |s| ==> '0' <= s[i] <= '9'
  {
    if s == [] then 0 else 10 * ParseDigits(s[..|s| - 1]) + (s[|s| - 1] as int - '0' as int)
  }

  /** Reading back the decimal text of `n` gives `n`. */
  lemma {:induction false} NatToStringRoundTrip(n: nat)
    ensures ParseDigits(NatToString(n)) == n
    decreases n
  {
    var s := NatToString(n);
    if n >= 10 {
      assert s[..|s| - 1] == NatToString(n / 10);
      NatToStringRoundTrip(n / 10);
    }
  }

  lemma NatToStringInjective(a: nat, b: nat)
    requires NatToString(a) == NatToString(b)
    ensures a == b
  {
    NatToStringRoundTrip(a);
    NatToStringRoundTrip(b);
  }

  /** `i` in decimal, with a leading '-' when it is negative. */
  function IntToString(i: int): (s: string)
    ensures |s| >= 1
    ensures s[0] == '-' <==> i < 0
    ensures ' ' !in s
  {
    if i < 0 then "-" + NatToString(-i) else NatToString(i)
  }

  /** Different numbers are written differently. */
  lemma IntToStringInjective(a: int, b: int)
    requires IntToString(a) == IntToString(b)
    ensures a == b
  {
    if a < 0 {
      assert b < 0;
      assert NatToString(-a) == NatToString(-b) by {
        assert NatToString(-a) == IntToString(a)[1..];
        assert NatToString(-b) == IntToString(b)[1..];
      }
      NatToStringInjective(-a, -b);
    } else {
      assert b >= 0;
      NatToStringInjective(a, b);
    }
  }

  /** The diagnostic as the validator writes it. */
  function Render(m: Message): (r: string)
    ensures |r| > |Prefix| + |m.text|
    ensures r[..|Prefix|] == Prefix && r[|r| - |m.text|..] == m.text
  {
    Prefix + IntToString(m.lineNumber) + " " + m.text
  }

  /** The first space of a word without spaces followed by a space and more
      text is the one after the word. */
  lemma {:induction false} FirstSpace(a: string, x: string)
    requires ' ' !in a
    ensures FirstIndexOf(a + " " + x, ' ') == |a|
  {
    var s := a + " " + x;
    if a != [] {
      assert s[0] == a[0] && a[0] in a;
      assert s[1..] == a[1..] + " " + x;
      FirstSpace(a[1..], x);
    }
  }

  /** A word without spaces, followed by a space, can be read back off the
      front of a text. */
  lemma SplitAtSpace(a: string, x: string, b: string, y: string)
    requires ' ' !in a && ' ' !in b
    requires a + " " + x == b + " " + y
    ensures a == b && x == y
  {
    var s := a + " " + x;
    FirstSpace(a, x);
    FirstSpace(b, y);
    assert a == s[..|a|] == b;
    assert x == s[|a| + 1..] == y;
  }

  /** Different diagnostics are written differently, so comparing written
      diagnostics compares the diagnostics themselves. */
  lemma RenderInjective(m: Message, n: Message)
    requires Render(m) == Render(n)
    ensures m == n
  {
    var a := IntToString(m.lineNumber);
    var b := IntToString(n.lineNumber);
    assert a + " " + m.text == b + " " + n.text by {
      assert Render(m) == Prefix + (a + " " + m.text);
      assert Render(n) == Prefix + (b + " " + n.text);
      assert Render(m)[|Prefix|..] == a + " " + m.text;
      assert Render(n)[|Prefix|..] == b + " " + n.text;
    }
    SplitAtSpace(a, m.text, b, n.text);
    IntToStringInjective(m.lineNumber, n.lineNumber);
  }

  /** The diagnostics, written out, in order. */
  function RenderAll(ms: seq<Message>): (r: seq<string>)
    ensures |r| == |ms|
    ensures forall i :: 0 <= i < |ms| ==> r[i] == Render(ms[i])
  {
    seq(|ms|, i requires 0 <= i < |ms| => Render(ms[i]))
  }

  /** Writing out one more diagnostic appends its text. */
  lemma RenderAllAppend(ms: seq<Message>, m: Message)
    ensures RenderAll(ms + [m]) == RenderAll(ms) + [Render(m)]
  {
    assert forall i :: 0 <= i < |ms| ==> (ms + [m])[i] == ms[i];
  }

  /** A written diagnostic occurs in the written list exactly when the
      diagnostic occurs in the list. */
  lemma RenderAllContains(ms: seq<Message>, m: Message)
    ensures Render(m) in RenderAll(ms) <==> m in ms
  {
    if Render(m) in RenderAll(ms) {
      var i :| 0 <= i < |ms| && RenderAll(ms)[i] == Render(m);
      RenderInjective(ms[i], m);
    }
  }

  /** The text `getErrorMessage` builds from the written diagnostics: each
      followed by a line break. */
  function Lines(lines: seq<string>): (s: string)
    ensures |s| >= |lines|
    ensures lines != [] ==> s[|s| - 1] == '\n'
  {
    if lines == [] then ""
    else Lines(lines[..|lines| - 1]) + lines[|lines| - 1] + "\n"
  }

  /** The validator's report: the success sentence exactly when there is no
      diagnostic, the diagnostics one per line otherwise. */
  function Report(lines: seq<string>): (r: string)
    ensures r == Success <==> lines == []
  {
    if lines == [] then Success
    else
      var s := Lines(lines);
      assert s[|s| - 1] == '\n' != Success[|Success| - 1];
      s
  }

  /** Writing a report of two lists is writing the first, then the second. */
  lemma {:induction false} LinesAppend(a: seq<string>, b: seq<string>)
    ensures Lines(a + b) == Lines(a) + Lines(b)
  {
    if b == [] {
      assert a + b == a;
    } else {
      var front := b[..|b| - 1];
      var last := b[|b| - 1];
      assert (a + b)[..|a + b| - 1] == a + front;
      assert (a + b)[|a + b| - 1] == last;
      LinesAppend(a, front);
      calc {
        Lines(a + b);
        Lines(a + front) + last + "\n";
        Lines(a) + Lines(front) + last + "\n";
        Lines(a) + (Lines(front) + last + "\n");
      }
    }
  }
}
