/** The tag-matching rules of the XML validator ("Kitty's algorithm") as
    functions on values.

    A run reads the tags of a document in order. Start tags are pushed on a
    stack of open tags; an end tag closes the open tag on top, cancels the
    unmatched record at the front of the error queue, or is charged as an
    error. Records charged as errors go to the error queue (`errorQ`); end tags
    with no start tag anywhere go to the extras queue (`extrasQ`). At the end
    of the document every tag still open is charged, and the two queues are
    reconciled pairwise. Every charge adds a diagnostic line to `messages`,
    at most once per distinct line of text; the document is well formed
    exactly when no diagnostic was recorded.

    The stack is listed from the bottom to the top, the queues from the front
    to the back. */
module Kitty {
  import opened Seqs
  import opened TagNames
  import opened Diagnostics

  /** A tag that has been read: its extracted name, its text as written and
      its line. */
  datatype TagInfo = TagInfo(tagName: string, originalTag: string, lineNumber: int)

  /** A tag as the tokenizer delivers it: its text, its line, and the verdicts
      of the four classifiers (processing instruction, self-closing tag, start
      tag, end tag). */
  datatype Token = Token(
    text: string,
    lineNumber: int,
    isProcessingInstruction: bool,
    isSelfClosing: bool,
    isStart: bool,
    isEnd: bool)

  /** The validator's working state. */
  datatype State = State(
    stack: seq<TagInfo>,
    errorQ: seq<TagInfo>,
    extrasQ: seq<TagInfo>,
    messages: seq<Message>)

  /** The state before the first tag is read. */
  const Initial := State([], [], [], [])

  /** The tail of every diagnostic. */
  const NotConstructed := " is not constructed correctly."

  /** The diagnostic charged for a tag record. */
  function Diagnostic(t: TagInfo): Message
  {
    Message(t.lineNumber, t.originalTag + NotConstructed)
  }

  /** `messages` with `m` appended unless it is already present. */
  function AddMessage(messages: seq<Message>, m: Message): (r: seq<Message>)
    ensures m in r
    ensures |messages| <= |r| <= |messages| + 1
  {
    if m in messages then messages else messages + [m]
  }

  /** Adding a diagnostic keeps the earlier ones in place, makes `m` present,
      adds nothing else and never creates a repeat. */
  lemma AddMessageAdds(messages: seq<Message>, m: Message)
    ensures var r := AddMessage(messages, m);
      && messages <= r && m in r
      && (forall x :: x in r <==> x in messages || x == m)
      && (NoDuplicates(messages) ==> NoDuplicates(r))
  {
  }

  /** `messages` after adding the diagnostic of each record of `ts` in
      order. */
  function ReportAll(messages: seq<Message>, ts: seq<TagInfo>): (r: seq<Message>)
    ensures |r| <= |messages| + |ts|
  {
    if ts == [] then messages
    else AddMessage(ReportAll(messages, ts[..|ts| - 1]), Diagnostic(ts[|ts| - 1]))
  }

  /** Reporting records keeps the earlier diagnostics in place, makes the
      diagnostic of every record present and never creates a repeat. */
  lemma {:induction false} ReportAllReports(messages: seq<Message>, ts: seq<TagInfo>)
    ensures var r := ReportAll(messages, ts);
      && messages <= r
      && (forall t :: t in ts ==> Diagnostic(t) in r)
      && (NoDuplicates(messages) ==> NoDuplicates(r))
  {
    if ts != [] {
      var front := ts[..|ts| - 1];
      ReportAllReports(messages, front);
      AddMessageAdds(ReportAll(messages, front), Diagnostic(ts[|ts| - 1]));
      assert forall t :: t in ts ==> t in front || t == ts[|ts| - 1];
    }
  }

  /** Reporting records whose diagnostics are already present changes
      nothing. */
  lemma {:induction false} ReportAllKnown(messages: seq<Message>, ts: seq<TagInfo>)
    requires forall t :: t in ts ==> Diagnostic(t) in messages
    ensures ReportAll(messages, ts) == messages
  {
    if ts != [] {
      assert forall t :: t in ts[..|ts| - 1] ==> t in ts;
      ReportAllKnown(messages, ts[..|ts| - 1]);
    }
  }

  /** `st` with the record `t` charged as an error. */
  function Charge(st: State, t: TagInfo): (r: State)
    ensures r.stack == st.stack && r.extrasQ == st.extrasQ
    ensures |r.errorQ| == |st.errorQ| + 1 && Diagnostic(t) in r.messages
    ensures |st.messages| <= |r.messages|
  {
    st.(errorQ := st.errorQ + [t], messages := AddMessage(st.messages, Diagnostic(t)))
  }

  /** `st` with the records of `ts` charged as errors in order. */
  function ChargeAll(st: State, ts: seq<TagInfo>): (r: State)
    ensures r.stack == st.stack && r.extrasQ == st.extrasQ
    ensures r.errorQ == st.errorQ + ts
    ensures r.messages == ReportAll(st.messages, ts)
    ensures |st.messages| <= |r.messages|
  {
    if ts == [] then st
    else Charge(ChargeAll(st, ts[..|ts| - 1]), ts[|ts| - 1])
  }

  // ---------------------------------------------------------------------
  // Reading tags

  /** The position of the topmost record named `name`, or -1. */
  function TopmostNamed(stack: seq<TagInfo>, name: string): (k: int)
    ensures -1 <= k < |stack|
    ensures 0 <= k ==> stack[k].tagName == name
  {
    if stack == [] then -1
    else if stack[|stack| - 1].tagName == name then |stack| - 1
    else TopmostNamed(stack[..|stack| - 1], name)
  }

  /** `TopmostNamed` finds a record with the name whenever there is one, and
      no record above the one it finds has the name. */
  lemma {:induction false} TopmostNamedIsTopmost(stack: seq<TagInfo>, name: string)
    ensures var k := TopmostNamed(stack, name);
      && (k == -1 <==> forall t :: t in stack ==> t.tagName != name)
      && forall j :: k < j < |stack| ==> stack[j].tagName != name
  {
    if stack != [] && stack[|stack| - 1].tagName != name {
      var front := stack[..|stack| - 1];
      TopmostNamedIsTopmost(front, name);
      assert forall t :: t in stack ==> t in front || t == stack[|stack| - 1];
      assert forall j :: 0 <= j < |front| ==> stack[j] == front[j];
    }
  }

  /** The search for a start tag named `name` below the top of the stack.
      When there is one, the records above the topmost such tag are charged as
      errors (bottom first) and the stack is cut below it; otherwise nothing
      changes. */
  function SearchStack(st: State, name: string): (res: (bool, State))
    ensures !res.0 ==> res.1 == st
  {
    var k := TopmostNamed(st.stack, name);
    if k == -1 then (false, st)
    else (true, ChargeAll(st.(stack := st.stack[..k]), st.stack[k + 1..]))
  }

  /** The search succeeds exactly when some open tag has the name. */
  lemma SearchStackFinds(st: State, name: string)
    ensures SearchStack(st, name).0 <==> exists t :: t in st.stack && t.tagName == name
  {
    TopmostNamedIsTopmost(st.stack, name);
  }

  /** A successful search splits the stack into the records kept, the
      matched start tag, and the records above it, none of which has the
      name; those are charged as errors in order, each with its diagnostic. */
  lemma SearchStackSplits(st: State, name: string)
    requires SearchStack(st, name).0
    ensures var r := SearchStack(st, name).1;
      var kept := r.stack;
      var charged := r.errorQ[|st.errorQ|..];
      && |kept| < |st.stack|
      && st.stack == kept + [st.stack[|kept|]] + charged
      && st.stack[|kept|].tagName == name
      && (forall j :: 0 <= j < |charged| ==> charged[j].tagName != name)
      && r.errorQ == st.errorQ + charged
      && r.extrasQ == st.extrasQ
      && r.messages == ReportAll(st.messages, charged)
  {
    var k := TopmostNamed(st.stack, name);
    var charged := st.stack[k + 1..];
    var r := ChargeAll(st.(stack := st.stack[..k]), charged);
    assert SearchStack(st, name).1 == r;
    assert r.errorQ[|st.errorQ|..] == charged by {
      assert r.errorQ == st.errorQ + charged;
    }
    assert st.stack == st.stack[..k] + [st.stack[k]] + charged;
    forall j | 0 <= j < |charged|
      ensures charged[j].tagName != name
    {
      TopmostNamedIsTopmost(st.stack, name);
      assert charged[j] == st.stack[k + 1 + j];
    }
  }

  /** The records of `ts` not named `name`, in order: those the search
      charges when it empties its temporary stack. */
  function Unmatched(ts: seq<TagInfo>, name: string): (r: seq<TagInfo>)
    ensures |r| <= |ts|
  {
    if ts == [] then []
    else
      var last := ts[|ts| - 1];
      Unmatched(ts[..|ts| - 1], name) + if last.tagName == name then [] else [last]
  }

  /** The unmatched records are records of `ts` without the name. */
  lemma {:induction false} UnmatchedFilters(ts: seq<TagInfo>, name: string)
    ensures forall t :: t in Unmatched(ts, name) ==> t in ts && t.tagName != name
  {
    if ts != [] {
      var front := ts[..|ts| - 1];
      UnmatchedFilters(front, name);
      assert forall t :: t in front ==> t in ts;
    }
  }

  /** When only the first record has the name, the unmatched records are all
      the others. */
  lemma {:induction false} UnmatchedAboveTopmost(ts: seq<TagInfo>, name: string)
    requires ts != [] && ts[0].tagName == name
    requires forall j :: 1 <= j < |ts| ==> ts[j].tagName != name
    ensures Unmatched(ts, name) == ts[1..]
  {
    if |ts| > 1 {
      var front := ts[..|ts| - 1];
      UnmatchedAboveTopmost(front, name);
      assert front[1..] + [ts[|ts| - 1]] == ts[1..];
    }
  }

  /** The rules for an end tag named `name` whose record is `t`, in the
      order the validator tries them. */
  function EndTag(st: State, t: TagInfo): (r: State)
    ensures |r.stack| <= |st.stack|
    ensures |r.extrasQ| <= |st.extrasQ| + 1
    ensures |st.messages| <= |r.messages|
  {
    var name := t.tagName;
    if st.stack != [] && st.stack[|st.stack| - 1].tagName == name then
      // it closes the open tag on top
      st.(stack := st.stack[..|st.stack| - 1])
    else if st.errorQ != [] && st.errorQ[0].tagName == name then
      // it cancels the charged record at the front of the error queue
      st.(errorQ := st.errorQ[1..])
    else if st.stack == [] then
      Charge(st, t)
    else
      var (found, r) := SearchStack(st, name);
      if found then r
      else st.(extrasQ := st.extrasQ + [t], messages := AddMessage(st.messages, Diagnostic(t)))
  }

  /** One tag of the document. */
  function Step(st: State, tok: Token): (r: State)
    ensures |r.stack| <= |st.stack| + (if tok.isStart then 1 else 0)
    ensures |st.messages| <= |r.messages|
  {
    if tok.isProcessingInstruction || tok.isSelfClosing then st
    else if tok.isStart then
      st.(stack := st.stack + [TagInfo(ExtractTagName(tok.text), tok.text, tok.lineNumber)])
    else if tok.isEnd then
      EndTag(st, TagInfo(ExtractTagName(tok.text), tok.text, tok.lineNumber))
    else st
  }

  /** The tags of a document, read in order. */
  function Scan(st: State, toks: seq<Token>): (r: State)
    ensures |r.stack| <= |st.stack| + |toks|
    ensures |st.messages| <= |r.messages|
  {
    if toks == [] then st
    else Step(Scan(st, toks[..|toks| - 1]), toks[|toks| - 1])
  }

  // ---------------------------------------------------------------------
  // End of the document

  /** Every tag still open is charged, the topmost first. */
  function RemainingStack(st: State): (r: State)
    ensures r.stack == [] && r.extrasQ == st.extrasQ
    ensures r.errorQ == st.errorQ + Reverse(st.stack)
  {
    ChargeAll(st.(stack := []), Reverse(st.stack))
  }

  /** At the end of the document every open tag is queued as an error with
      its diagnostic recorded, and no earlier diagnostic is lost. */
  lemma RemainingStackCharges(st: State)
    ensures var r := RemainingStack(st);
      && st.messages <= r.messages
      && forall t :: t in st.stack ==> t in r.errorQ && Diagnostic(t) in r.messages
  {
    ReportAllReports(st.messages, Reverse(st.stack));
    forall t | t in st.stack ensures t in Reverse(st.stack) {
      var i :| 0 <= i < |st.stack| && st.stack[i] == t;
      assert Reverse(st.stack)[|st.stack| - 1 - i] == t;
    }
  }

  /** Both queues are emptied, the error queue first, each record reported. */
  function ReportQueues(st: State): (r: State)
    ensures r.stack == st.stack && r.errorQ == [] && r.extrasQ == []
  {
    st.(errorQ := [], extrasQ := [], messages := ReportAll(ReportAll(st.messages, st.errorQ), st.extrasQ))
  }

  /** Reporting the queues records the diagnostic of every queued record. */
  lemma ReportQueuesReports(st: State)
    ensures var r := ReportQueues(st);
      && st.messages <= r.messages
      && forall t :: t in st.errorQ || t in st.extrasQ ==> Diagnostic(t) in r.messages
  {
    var m1 := ReportAll(st.messages, st.errorQ);
    ReportAllReports(st.messages, st.errorQ);
    ReportAllReports(m1, st.extrasQ);
  }

  /** The two queues are matched front to front. When exactly one is empty
      all records left are reported and the verdict is negative; otherwise
      the verdict is whether any diagnostic was recorded. */
  function Reconcile(st: State): (res: (bool, State))
    ensures res.1.stack == st.stack && res.1.errorQ == [] && res.1.extrasQ == []
    ensures res.0 <==> res.1.messages == []
    decreases |st.errorQ| + |st.extrasQ|
  {
    if st.errorQ == [] && st.extrasQ == [] then (st.messages == [], st)
    else if (st.errorQ == []) != (st.extrasQ == []) then
      var r := ReportQueues(st);
      ReportQueuesReports(st);
      assert st.errorQ != [] ==> st.errorQ[0] in st.errorQ;
      assert st.extrasQ != [] ==> st.extrasQ[0] in st.extrasQ;
      (false, r)
    else if st.errorQ[0].tagName != st.extrasQ[0].tagName then
      Reconcile(st.(errorQ := st.errorQ[1..], messages := AddMessage(st.messages, Diagnostic(st.errorQ[0]))))
    else
      Reconcile(st.(errorQ := st.errorQ[1..], extrasQ := st.extrasQ[1..]))
  }

  /** The validation of a whole document. */
  function Validate(toks: seq<Token>): (res: (bool, State))
    ensures res.1.stack == [] && res.1.errorQ == [] && res.1.extrasQ == []
    ensures res.0 <==> res.1.messages == []
  {
    Reconcile(RemainingStack(Scan(Initial, toks)))
  }

  // ---------------------------------------------------------------------
  // Properties

  /** Every record waiting in a queue has had its diagnostic recorded. */
  ghost predicate Accounted(st: State) {
    forall t :: t in st.errorQ || t in st.extrasQ ==> Diagnostic(t) in st.messages
  }

  /** The invariant of a run. */
  ghost predicate Inv(st: State) {
    NoDuplicates(st.messages) && Accounted(st)
  }

  lemma InitialInv()
    ensures Inv(Initial)
  {
  }

  /** A tag keeps the diagnostics free of repeats and every queued record
      accounted for. */
  lemma StepInv(st: State, tok: Token)
    requires Inv(st)
    ensures Inv(Step(st, tok))
  {
    if !tok.isProcessingInstruction && !tok.isSelfClosing && !tok.isStart && tok.isEnd {
      var t := TagInfo(ExtractTagName(tok.text), tok.text, tok.lineNumber);
      EndTagInv(st, t);
    }
  }

  /** Charging records keeps the invariant. */
  lemma ChargeAllInv(st: State, ts: seq<TagInfo>)
    requires Inv(st)
    ensures Inv(ChargeAll(st, ts))
  {
    var r := ChargeAll(st, ts);
    ReportAllReports(st.messages, ts);
    forall x | x in r.errorQ || x in r.extrasQ
      ensures Diagnostic(x) in r.messages
    {
      if x !in ts {
        assert x in st.errorQ || x in st.extrasQ;
      }
    }
  }

  /** Queueing an end tag with no start tag keeps the invariant. */
  lemma ExtraInv(st: State, t: TagInfo)
    requires Inv(st)
    ensures Inv(st.(extrasQ := st.extrasQ + [t], messages := AddMessage(st.messages, Diagnostic(t))))
  {
    AddMessageAdds(st.messages, Diagnostic(t));
  }

  /** Cancelling the front of the error queue keeps the invariant. */
  lemma CancelInv(st: State)
    requires Inv(st) && st.errorQ != []
    ensures Inv(st.(errorQ := st.errorQ[1..]))
  {
    assert forall x :: x in st.errorQ[1..] ==> x in st.errorQ;
  }

  lemma EndTagCancelInv(st: State, t: TagInfo)
    requires Inv(st)
    requires !(st.stack != [] && st.stack[|st.stack| - 1].tagName == t.tagName)
    requires st.errorQ != [] && st.errorQ[0].tagName == t.tagName
    ensures Inv(EndTag(st, t))
  {
    assert EndTag(st, t) == st.(errorQ := st.errorQ[1..]);
    CancelInv(st);
  }

  lemma EndTagChargeInv(st: State, t: TagInfo)
    requires Inv(st) && st.stack == []
    requires !(st.errorQ != [] && st.errorQ[0].tagName == t.tagName)
    ensures Inv(EndTag(st, t))
  {
    assert EndTag(st, t) == ChargeAll(st, [t]) by {
      assert [t][..0] == [];
    }
    ChargeAllInv(st, [t]);
  }

  lemma EndTagSearchInv(st: State, t: TagInfo)
    requires Inv(st) && st.stack != [] && st.stack[|st.stack| - 1].tagName != t.tagName
    requires !(st.errorQ != [] && st.errorQ[0].tagName == t.tagName)
    ensures Inv(EndTag(st, t))
  {
    var k := TopmostNamed(st.stack, t.tagName);
    if k == -1 {
      assert EndTag(st, t) == st.(extrasQ := st.extrasQ + [t], messages := AddMessage(st.messages, Diagnostic(t)));
      ExtraInv(st, t);
    } else {
      var st' := st.(stack := st.stack[..k]);
      assert EndTag(st, t) == ChargeAll(st', st.stack[k + 1..]);
      ChargeAllInv(st', st.stack[k + 1..]);
    }
  }

  /** Every rule for an end tag keeps the invariant. */
  lemma EndTagInv(st: State, t: TagInfo)
    requires Inv(st)
    ensures Inv(EndTag(st, t))
  {
    if st.stack != [] && st.stack[|st.stack| - 1].tagName == t.tagName {
    } else if st.errorQ != [] && st.errorQ[0].tagName == t.tagName {
      EndTagCancelInv(st, t);
    } else if st.stack == [] {
      EndTagChargeInv(st, t);
    } else {
      EndTagSearchInv(st, t);
    }
  }

  lemma {:induction false} ScanInv(st: State, toks: seq<Token>)
    requires Inv(st)
    ensures Inv(Scan(st, toks))
  {
    if toks != [] {
      ScanInv(st, toks[..|toks| - 1]);
      StepInv(Scan(st, toks[..|toks| - 1]), toks[|toks| - 1]);
    }
  }

  lemma RemainingStackInv(st: State)
    requires Inv(st)
    ensures Inv(RemainingStack(st))
  {
    ChargeAllInv(st.(stack := []), Reverse(st.stack));
  }

  /** Under the invariant, reconciling the queues records no new diagnostic:
      every record it reports was reported when it was queued. */
  lemma {:induction false} ReconcileKeepsMessages(st: State)
    requires Inv(st)
    ensures Reconcile(st).1.messages == st.messages
    decreases |st.errorQ| + |st.extrasQ|
  {
    if st.errorQ == [] && st.extrasQ == [] {
    } else if (st.errorQ == []) != (st.extrasQ == []) {
      ReportAllKnown(st.messages, st.errorQ);
      ReportAllKnown(st.messages, st.extrasQ);
    } else if st.errorQ[0].tagName != st.extrasQ[0].tagName {
      assert st.errorQ[0] in st.errorQ;
      var next := st.(errorQ := st.errorQ[1..]);
      assert st.(errorQ := st.errorQ[1..], messages := AddMessage(st.messages, Diagnostic(st.errorQ[0]))) == next;
      assert forall x :: x in st.errorQ[1..] ==> x in st.errorQ;
      ReconcileKeepsMessages(next);
    } else {
      var next := st.(errorQ := st.errorQ[1..], extrasQ := st.extrasQ[1..]);
      assert forall x :: x in st.errorQ[1..] ==> x in st.errorQ;
      assert forall x :: x in st.extrasQ[1..] ==> x in st.extrasQ;
      ReconcileKeepsMessages(next);
    }
  }

  /** The verdict: a document is well formed exactly when reading it leaves no
      tag open and records no diagnostic. The diagnostics never repeat. */
  lemma ValidateVerdict(toks: seq<Token>)
    ensures var scanned := Scan(Initial, toks);
      Validate(toks).0 <==> scanned.stack == [] && scanned.messages == []
    ensures NoDuplicates(Validate(toks).1.messages)
  {
    var scanned := Scan(Initial, toks);
    InitialInv();
    ScanInv(Initial, toks);
    var remaining := RemainingStack(scanned);
    RemainingStackInv(scanned);
    RemainingStackCharges(scanned);
    ReconcileKeepsMessages(remaining);
    if scanned.stack != [] {
      assert scanned.stack[0] in scanned.stack;
    }
  }

  /** Reading a document in two parts is reading it whole. */
  lemma {:induction false} ScanAppend(st: State, a: seq<Token>, b: seq<Token>)
    ensures Scan(st, a + b) == Scan(Scan(st, a), b)
  {
    if b == [] {
      assert a + b == a;
    } else {
      assert (a + b)[..|a + b| - 1] == a + b[..|b| - 1];
      assert (a + b)[|a + b| - 1] == b[|b| - 1];
      ScanAppend(st, a, b[..|b| - 1]);
    }
  }

  // ---------------------------------------------------------------------
  // Well-nested documents

  /** An element of a document: its name, the attribute text of its start
      tag, the lines of its start and end tags, and its child elements. */
  datatype Element = Element(
    name: string,
    attributes: string,
    startLine: int,
    endLine: int,
    children: seq<Element>)

  /** An element written `<name attributes>` ... `</name>` whose descendants
      are well formed as well. The attributes are empty or begin with a space;
      they hold no '>' (which would end the tag early) and no line break (the
      tag is on one line), and they do not end in '/' (which would make the
      start tag self-closing). Its start tag is then accepted by the start-tag
      pattern and rejected by the self-closing test, and its end tag is
      accepted by the end-tag pattern. */
  predicate WellFormedElement(e: Element)
    decreases e
  {
    && ValidName(e.name)
    && (e.attributes == [] || e.attributes[0] == ' ')
    && '>' !in e.attributes && '\n' !in e.attributes && '\r' !in e.attributes
    && (e.attributes == [] || e.attributes[|e.attributes| - 1] != '/')
    && forall c :: c in e.children ==> WellFormedElement(c)
  }

  function StartToken(e: Element): Token {
    Token("<" + e.name + e.attributes + ">", e.startLine, false, false, true, false)
  }

  function EndToken(e: Element): Token {
    Token("</" + e.name + ">", e.endLine, false, false, false, true)
  }

  /** The tags of an element, in document order. */
  function ElementTokens(e: Element): seq<Token>
    decreases e
  {
    [StartToken(e)] + ForestTokens(e.children) + [EndToken(e)]
  }

  /** The tags of a sequence of sibling elements, in document order. */
  function ForestTokens(es: seq<Element>): seq<Token>
    decreases es
  {
    if es == [] then [] else ElementTokens(es[0]) + ForestTokens(es[1..])
  }

  /** Reading one tag is one step. */
  lemma ScanOne(st: State, tok: Token)
    ensures Scan(st, [tok]) == Step(st, tok)
  {
    assert [tok][..0] == [];
  }

  /** The start tag of a well-formed element pushes its record. */
  lemma StartTokenPushes(st: State, e: Element)
    requires WellFormedElement(e)
    ensures Step(st, StartToken(e)) == st.(stack := st.stack + [TagInfo(e.name, StartToken(e).text, e.startLine)])
  {
    assert StartToken(e).text == "<" + e.name + (e.attributes + ">");
    ExtractTagNameOfWellFormedTag("<", e.name, e.attributes + ">");
  }

  /** An end tag whose name is that of the record on top of the stack pops
      that record and changes nothing else. */
  lemma EndTagPops(st: State, t: TagInfo, u: TagInfo)
    requires u.tagName == t.tagName
    ensures EndTag(st.(stack := st.stack + [t]), u) == st
  {
    assert (st.stack + [t])[..|st.stack|] == st.stack;
  }

  /** The end tag of a well-formed element closes the record its start tag
      pushed. */
  lemma EndTokenPops(st: State, e: Element, t: TagInfo)
    requires WellFormedElement(e) && t.tagName == e.name
    ensures Step(st.(stack := st.stack + [t]), EndToken(e)) == st
  {
    var end := EndToken(e);
    var u := TagInfo(ExtractTagName(end.text), end.text, end.lineNumber);
    assert Step(st.(stack := st.stack + [t]), end) == EndTag(st.(stack := st.stack + [t]), u);
    assert u.tagName == e.name by {
      ExtractTagNameOfWellFormedTag("</", e.name, ">");
    }
    EndTagPops(st, t, u);
  }

  /** Reading a well-formed element from any state returns to that state. */
  lemma {:induction false} ElementBalanced(st: State, e: Element)
    requires WellFormedElement(e)
    ensures Scan(st, ElementTokens(e)) == st
    decreases e
  {
    var start := StartToken(e);
    var end := EndToken(e);
    var body := ForestTokens(e.children);
    var record := TagInfo(e.name, start.text, e.startLine);
    var openState := st.(stack := st.stack + [record]);
    assert Scan(st, [start]) == openState by {
      ScanOne(st, start);
      StartTokenPushes(st, e);
    }
    assert Scan(st, [start] + body) == openState by {
      ScanAppend(st, [start], body);
      ForestBalanced(openState, e.children);
    }
    assert Scan(st, [start] + body + [end]) == st by {
      ScanAppend(st, [start] + body, [end]);
      ScanOne(openState, end);
      EndTokenPops(st, e, record);
    }
  }

  lemma {:induction false} ForestBalanced(st: State, es: seq<Element>)
    requires forall c :: c in es ==> WellFormedElement(c)
    ensures Scan(st, ForestTokens(es)) == st
    decreases es
  {
    if es != [] {
      ElementBalanced(st, es[0]);
      assert forall c :: c in es[1..] ==> c in es;
      ForestBalanced(st, es[1..]);
      ScanAppend(st, ElementTokens(es[0]), ForestTokens(es[1..]));
    } else {
      assert ForestTokens(es) == [];
    }
  }

  /** A document made of well-formed elements is accepted with no
      diagnostic. */
  lemma WellNestedAccepted(es: seq<Element>)
    requires forall c :: c in es ==> WellFormedElement(c)
    ensures Validate(ForestTokens(es)) == (true, Initial)
  {
    ForestBalanced(Initial, es);
  }
}
