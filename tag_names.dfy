/** Tag-name extraction (`XMLParser.extractTagName`) and the Java string
    operations it is built from: removing '<', '>' and '/', `String.trim`,
    `indexOf(' ')`, `startsWith("?")` and `substring`. */
module TagNames {
  import opened Seqs

  /** The characters `String.trim` strips: every code point up to U+0020. */
  predicate IsTrimmable(c: char) {
    c <= ' '
  }

  /** The characters the pattern `[<>/]` matches. */
  predicate IsMarkup(c: char) {
    c == '<' || c == '>' || c == '/'
  }

  /** `s` with every '<', '>' and '/' removed, the rest kept in order. */
  function StripMarkup(s: string): (r: string)
    ensures |r| <= |s|
    ensures '<' !in r && '>' !in r && '/' !in r
  {
    if s == [] then []
    else if IsMarkup(s[0]) then StripMarkup(s[1..])
    else [s[0]] + StripMarkup(s[1..])
  }

  /** `s` without its leading trimmable characters. */
  function TrimLeft(s: string): (r: string)
    ensures |r| <= |s|
    ensures r == [] || !IsTrimmable(r[0])
  {
    if s != [] && IsTrimmable(s[0]) then TrimLeft(s[1..]) else s
  }

  /** `s` without its trailing trimmable characters. */
  function TrimRight(s: string): (r: string)
    ensures |r| <= |s|
    ensures r == [] || !IsTrimmable(r[|r| - 1])
  {
    if s != [] && IsTrimmable(s[|s| - 1]) then TrimRight(s[..|s| - 1]) else s
  }

  /** Java's `String.trim`: `s` without leading and trailing characters up to
      U+0020. */
  function Trim(s: string): (r: string)
    ensures |r| <= |s|
    ensures r == [] || !IsTrimmable(r[|r| - 1])
  {
    TrimRight(TrimLeft(s))
  }

  /** `s` up to its first space (`s.substring(0, s.indexOf(' '))`), or all of
      `s` when it has none. */
  function CutAtSpace(s: string): (r: string)
    ensures |r| <= |s|
    ensures ' ' !in r
  {
    var spaceIndex := FirstIndexOf(s, ' ');
    if spaceIndex != -1 then s[..spaceIndex] else s
  }

  /** `s` without one leading '?', the mark of a processing instruction. */
  function DropQuestionMark(s: string): (r: string)
    ensures |s| - 1 <= |r| <= |s|
    ensures s != [] && s[0] == '?' <==> |r| < |s|
  {
    if |s| > 0 && s[0] == '?' then s[1..] else s
  }

  /** The name in a tag's text: markup characters removed, trimmed, cut at
      the first space, one leading '?' dropped, trimmed again. */
  function ExtractTagName(tag: string): (name: string)
    ensures |name| <= |tag|
    ensures name == [] || !IsTrimmable(name[|name| - 1])
  {
    Trim(DropQuestionMark(CutAtSpace(Trim(StripMarkup(tag)))))
  }

  /** `TrimLeft(s)` is a suffix of `s` that starts with a character that is
      not trimmable, and everything cut off is trimmable. */
  lemma {:induction false} TrimLeftSuffix(s: string)
    ensures var r := TrimLeft(s);
      && |r| <= |s| && r == s[|s| - |r|..]
      && (r == [] || !IsTrimmable(r[0]))
      && forall i :: 0 <= i < |s| - |r| ==> IsTrimmable(s[i])
  {
    if s != [] && IsTrimmable(s[0]) {
      var t := s[1..];
      TrimLeftSuffix(t);
      var r := TrimLeft(t);
      assert t[|t| - |r|..] == s[|s| - |r|..];
      assert forall i :: 1 <= i < |s| ==> s[i] == t[i - 1];
    }
  }

  /** `TrimRight(s)` is a prefix of `s` that ends with a character that is not
      trimmable, and everything cut off is trimmable. */
  lemma {:induction false} TrimRightPrefix(s: string)
    ensures var r := TrimRight(s);
      && |r| <= |s| && r == s[..|r|]
      && (r == [] || !IsTrimmable(r[|r| - 1]))
      && forall i :: |r| <= i < |s| ==> IsTrimmable(s[i])
  {
    if s != [] && IsTrimmable(s[|s| - 1]) {
      TrimRightPrefix(s[..|s| - 1]);
    }
  }

  /** A trimmed text is no longer than the text and, unless empty, starts and
      ends with characters that are not trimmable. */
  lemma TrimEnds(s: string)
    ensures var r := Trim(s);
      |r| <= |s| && (r == [] || (!IsTrimmable(r[0]) && !IsTrimmable(r[|r| - 1])))
  {
    var l := TrimLeft(s);
    TrimLeftSuffix(s);
    TrimRightPrefix(l);
    var r := TrimRight(l);
    if r != [] {
      assert r[0] == l[0];
    }
  }

  /** The cut text is the part of `s` before its first space. */
  lemma CutAtSpaceBeforeSpace(s: string)
    ensures var r := CutAtSpace(s);
      && |r| <= |s| && r == s[..|r|]
      && ' ' !in r
      && (|r| < |s| ==> s[|r|] == ' ')
  {
  }

  /** The extracted name, unless empty, starts and ends with characters that
      are not trimmable. */
  lemma ExtractTagNameEnds(tag: string)
    ensures var name := ExtractTagName(tag);
      name == [] || (!IsTrimmable(name[0]) && !IsTrimmable(name[|name| - 1]))
  {
    TrimEnds(DropQuestionMark(CutAtSpace(Trim(StripMarkup(tag)))));
  }

  /** The first character of a tag name accepted by the parser's tag patterns. */
  predicate IsNameStart(c: char) {
    'a' <= c <= 'z' || 'A' <= c <= 'Z'
  }

  /** A later character of a tag name accepted by the parser's tag patterns. */
  predicate IsNameChar(c: char) {
    IsNameStart(c) || '0' <= c <= '9' || c == '_' || c == '-'
  }

  /** A name matching `[a-zA-Z][a-zA-Z0-9_-]*`. */
  predicate ValidName(n: string) {
    |n| > 0 && IsNameStart(n[0]) && forall i :: 1 <= i < |n| ==> IsNameChar(n[i])
  }

  /** Removing markup distributes over concatenation. */
  lemma {:induction false} StripMarkupAppend(a: string, b: string)
    ensures StripMarkup(a + b) == StripMarkup(a) + StripMarkup(b)
  {
    if a == [] {
      assert a + b == b;
    } else {
      assert (a + b)[0] == a[0];
      assert (a + b)[1..] == a[1..] + b;
      StripMarkupAppend(a[1..], b);
    }
  }

  /** Text without markup characters is left as it is. */
  lemma {:induction false} StripMarkupOfClean(s: string)
    requires forall i :: 0 <= i < |s| ==> !IsMarkup(s[i])
    ensures StripMarkup(s) == s
  {
    if s != [] {
      assert !IsMarkup(s[0]);
      StripMarkupOfClean(s[1..]);
    }
  }

  /** Every character of `Trim(s)` is a character of `s`. */
  lemma TrimKeepsCharacters(s: string, p: char -> bool)
    requires forall i :: 0 <= i < |s| ==> p(s[i])
    ensures forall i :: 0 <= i < |Trim(s)| ==> p(Trim(s)[i])
  {
    var l := TrimLeft(s);
    TrimLeftSuffix(s);
    TrimRightPrefix(l);
    assert forall i :: 0 <= i < |l| ==> l[i] == s[|s| - |l| + i];
  }

  /** The extracted name contains no markup character and no space. */
  lemma ExtractTagNameCharacters(tag: string)
    ensures forall i :: 0 <= i < |ExtractTagName(tag)| ==>
              !IsMarkup(ExtractTagName(tag)[i]) && ExtractTagName(tag)[i] != ' '
  {
    var clean := Trim(StripMarkup(tag));
    TrimKeepsCharacters(StripMarkup(tag), c => !IsMarkup(c));
    var cut := CutAtSpace(clean);
    CutAtSpaceBeforeSpace(clean);
    assert forall i :: 0 <= i < |cut| ==> cut[i] == clean[i];
    var unquestioned := DropQuestionMark(cut);
    assert forall i :: 0 <= i < |unquestioned| ==> unquestioned[i] == cut[|cut| - |unquestioned| + i];
    TrimKeepsCharacters(unquestioned, c => !IsMarkup(c) && c != ' ');
  }

  /** Trailing trimming stops at a last character that is not trimmable. */
  lemma {:induction false} TrimRightAppend(p: string, q: string)
    requires p != [] && !IsTrimmable(p[|p| - 1])
    ensures TrimRight(p + q) == p + TrimRight(q)
  {
    if q != [] {
      assert (p + q)[..|p + q| - 1] == p + q[..|q| - 1];
      if IsTrimmable(q[|q| - 1]) {
        TrimRightAppend(p, q[..|q| - 1]);
      }
    }
  }

  /** A valid name has no markup character, no trimmable character and no
      '?'. */
  lemma ValidNameCharacters(n: string)
    requires ValidName(n)
    ensures forall i :: 0 <= i < |n| ==> !IsMarkup(n[i]) && !IsTrimmable(n[i]) && n[i] != '?'
  {
    forall i | 0 <= i < |n|
      ensures !IsMarkup(n[i]) && !IsTrimmable(n[i]) && n[i] != '?'
    {
      if i > 0 {
        assert IsNameChar(n[i]);
      }
    }
  }

  /** Removing markup from what may close a tag leaves nothing or text that
      starts with a space. */
  lemma StripClosing(closing: string)
    requires closing == ">" || closing == "/>" || (|closing| > 0 && closing[0] == ' ')
    ensures var r := StripMarkup(closing); r == [] || r[0] == ' '
  {
    if closing == "/>" {
      assert closing[1..] == ">";
    }
  }

  /** Removing markup from a well-formed tag leaves its name followed by
      nothing or by a space. */
  lemma StripWellFormedTag(opening: string, n: string, closing: string)
    requires opening == "<" || opening == "</"
    requires ValidName(n)
    requires closing == ">" || closing == "/>" || (|closing| > 0 && closing[0] == ' ')
    ensures var rest := StripMarkup(closing);
      StripMarkup(opening + n + closing) == n + rest && (rest == [] || rest[0] == ' ')
  {
    assert StripMarkup(opening) == [] by {
      var slash := "/";
      assert slash[1..] == [] && StripMarkup(slash) == StripMarkup(slash[1..]);
      assert StripMarkup(opening) == StripMarkup(opening[1..]);
      assert opening[1..] == [] || opening[1..] == slash;
    }
    assert StripMarkup(n) == n by {
      ValidNameCharacters(n);
      StripMarkupOfClean(n);
    }
    assert opening + n + closing == opening + (n + closing);
    StripMarkupAppend(opening, n + closing);
    StripMarkupAppend(n, closing);
    StripClosing(closing);
  }

  /** Trimming a name followed by more text trims only the text's end. */
  lemma TrimNameThenRest(n: string, rest: string)
    requires ValidName(n)
    ensures Trim(n + rest) == n + TrimRight(rest)
  {
    ValidNameCharacters(n);
    assert TrimLeft(n + rest) == n + rest;
    TrimRightAppend(n, rest);
  }

  /** Cutting a name followed by nothing or by a space yields the name. */
  lemma CutNameAtSpace(n: string, rest: string)
    requires ' ' !in n
    requires rest == [] || rest[0] == ' '
    ensures CutAtSpace(n + rest) == n
  {
    CutAtSpaceBeforeSpace(n + rest);
    assert (n + rest)[..|n|] == n;
  }

  /** For every tag the parser's patterns accept — a start tag `<n>` or
      `<n attributes>`, an end tag `</n>`, or a self-closing tag `<n/>` — the
      extracted name is exactly the tag name `n`. */
  lemma ExtractTagNameOfWellFormedTag(opening: string, n: string, closing: string)
    requires opening == "<" || opening == "</"
    requires ValidName(n)
    requires closing == ">" || closing == "/>" || (|closing| > 0 && closing[0] == ' ')
    ensures ExtractTagName(opening + n + closing) == n
  {
    var rest := StripMarkup(closing);
    var trimmedRest := TrimRight(rest);
    assert StripMarkup(opening + n + closing) == n + rest by {
      StripWellFormedTag(opening, n, closing);
    }
    assert Trim(n + rest) == n + trimmedRest by {
      TrimNameThenRest(n, rest);
    }
    assert CutAtSpace(n + trimmedRest) == n by {
      StripWellFormedTag(opening, n, closing);
      ValidNameCharacters(n);
      TrimRightPrefix(rest);
      assert trimmedRest == [] || trimmedRest[0] == rest[0];
      CutNameAtSpace(n, trimmedRest);
    }
    assert Trim(DropQuestionMark(n)) == n by {
      ValidNameCharacters(n);
      assert DropQuestionMark(n) == n;
      assert TrimLeft(n) == n;
      assert TrimRight(n) == n;
    }
  }
}
