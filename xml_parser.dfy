/** The validator object `XMLParser`: a stack of open tags, the error and
    extras queues and the list of diagnostic lines, updated tag by tag.

    The stack and the queues are held as their contents (the stack from the
    bottom to the top, the queues from the front to the back); each push,
    pop, enqueue and dequeue is the corresponding update of that sequence, as
    `MyStack` and `MyQueue` specify it. Each method is proved to change the
    object exactly as the corresponding function of module `Kitty` changes
    the abstract `State` returned by `Snapshot`. The diagnostic lines are kept
    as text, as the validator keeps them; the ghost field `diagnostics` holds
    the records they were written from. */
module Validator {
  import opened Seqs
  import opened TagNames
  import opened Diagnostics
  import opened Kitty

  class XMLParser {
    var tagStack: seq<TagInfo>
    var errorQ: seq<TagInfo>
    var extrasQ: seq<TagInfo>
    var errorMessages: seq<string>

    ghost var diagnostics: seq<Message>

    /** The diagnostic lines are the diagnostics, written out. */
    ghost predicate Valid()
      reads this
    {
      errorMessages == RenderAll(diagnostics)
    }

    /** The abstract state the object stands for. */
    ghost function Snapshot(): State
      reads this
    {
      State(tagStack, errorQ, extrasQ, diagnostics)
    }

    constructor ()
      ensures Valid()
      ensures Snapshot() == Initial && errorMessages == []
    {
      tagStack := [];
      errorQ := [];
      extrasQ := [];
      errorMessages := [];
      diagnostics := [];
    }

    /** Records the diagnostic `message` for line `lineNumber` unless the same
        line of text is already recorded. */
    method AddErrorMessage(lineNumber: int, message: string)
      requires Valid()
      modifies this
      ensures Valid()
      ensures tagStack == old(tagStack) && errorQ == old(errorQ) && extrasQ == old(extrasQ)
      ensures diagnostics == AddMessage(old(diagnostics), Message(lineNumber, message))
    {
      var errorMsg := "Error at line: " + IntToString(lineNumber) + " " + message;
      ghost var m := Message(lineNumber, message);
      assert errorMsg == Render(m);
      RenderAllContains(diagnostics, m);
      if errorMsg !in errorMessages {
        RenderAllAppend(diagnostics, m);
        errorMessages := errorMessages + [errorMsg];
        diagnostics := diagnostics + [m];
      }
    }

    /** One tag of the document, dispatched on its classification. */
    method ProcessTag(tok: Token)
      requires Valid()
      modifies this
      ensures Valid()
      ensures Snapshot() == Step(old(Snapshot()), tok)
    {
      if tok.isProcessingInstruction {
        return;
      }
      if tok.isSelfClosing {
        return;
      }
      if tok.isStart {
        var tagName := ExtractTagName(tok.text);
        ghost var st := Snapshot();
        assert Step(st, tok) == st.(stack := st.stack + [TagInfo(tagName, tok.text, tok.lineNumber)]);
        tagStack := tagStack + [TagInfo(tagName, tok.text, tok.lineNumber)];
      } else if tok.isEnd {
        var endTagName := ExtractTagName(tok.text);
        ghost var st := Snapshot();
        assert Step(st, tok) == EndTag(st, TagInfo(endTagName, tok.text, tok.lineNumber));
        ProcessEndTag(endTagName, tok.lineNumber, tok.text);
      }
    }

    /** The rules for an end tag, tried in order. */
    method ProcessEndTag(endTagName: string, lineNumber: int, originalTag: string)
      requires Valid()
      modifies this
      ensures Valid()
      ensures Snapshot() == EndTag(old(Snapshot()), TagInfo(endTagName, originalTag, lineNumber))
    {
      if |tagStack| != 0 && tagStack[|tagStack| - 1].tagName == endTagName {
        tagStack := tagStack[..|tagStack| - 1];
      } else if |errorQ| != 0 && errorQ[0].tagName == endTagName {
        errorQ := errorQ[1..];
      } else if |tagStack| == 0 {
        errorQ := errorQ + [TagInfo(endTagName, originalTag, lineNumber)];
        AddErrorMessage(lineNumber, originalTag + NotConstructed);
      } else {
        var foundInStack := SearchStackForMatch(endTagName, lineNumber, originalTag);
        if !foundInStack {
          extrasQ := extrasQ + [TagInfo(endTagName, originalTag, lineNumber)];
          AddErrorMessage(lineNumber, originalTag + NotConstructed);
        }
      }
    }

    /** Pops the open tags onto a temporary stack until one named
        `endTagName` turns up; then empties the temporary stack, charging
        every record on it not named `endTagName` as an error. When there is
        no such tag, the stack is restored. The temporary stack is held from
        its top to its bottom, so that it lists the popped records in their
        order on the stack. */
    method SearchStackForMatch(endTagName: string, lineNumber: int, originalTag: string) returns (found: bool)
      requires Valid()
      modifies this
      ensures Valid()
      ensures (found, Snapshot()) == SearchStack(old(Snapshot()), endTagName)
    {
      ghost var st0 := Snapshot();
      ghost var s0 := tagStack;
      var tempStack: seq<TagInfo> := [];
      found := false;
      while |tagStack| != 0
        invariant Valid()
        invariant |tagStack| <= |s0| && tagStack + tempStack == s0
        invariant !found
        invariant forall j :: 0 <= j < |tempStack| ==> tempStack[j].tagName != endTagName
        invariant errorQ == st0.errorQ && extrasQ == st0.extrasQ && diagnostics == st0.messages
        decreases |tagStack|
      {
        var currentTag := tagStack[|tagStack| - 1];
        tagStack := tagStack[..|tagStack| - 1];
        tempStack := [currentTag] + tempStack;
        if currentTag.tagName == endTagName {
          found := true;
          ghost var k := |tagStack|;
          assert tagStack == s0[..k] && tempStack == s0[k..];
          ChargeUnmatched(tempStack, endTagName);
          tempStack := [];
          SearchFound(st0, k, endTagName);
          assert Snapshot() == ChargeAll(st0.(stack := s0[..k]), Unmatched(s0[k..], endTagName));
          break;
        }
      }
      if !found {
        SearchMissing(st0, endTagName);
        while |tempStack| != 0
          invariant Valid()
          invariant |tagStack| <= |s0| && tagStack + tempStack == s0
          invariant errorQ == st0.errorQ && extrasQ == st0.extrasQ && diagnostics == st0.messages
          decreases |tempStack|
        {
          tagStack := tagStack + [tempStack[0]];
          tempStack := tempStack[1..];
        }
        assert Snapshot() == st0;
      }
    }

    /** The inner loop of `SearchStackForMatch`: pops the temporary stack
        `above` (held from its top) empty, charging every record not named
        `endTagName` as an error. */
    method ChargeUnmatched(above: seq<TagInfo>, endTagName: string)
      requires Valid()
      modifies this
      ensures Valid()
      ensures tagStack == old(tagStack) && extrasQ == old(extrasQ)
      ensures errorQ == old(errorQ) + Unmatched(above, endTagName)
      ensures diagnostics == ReportAll(old(diagnostics), Unmatched(above, endTagName))
    {
      ghost var q0 := errorQ;
      ghost var d0 := diagnostics;
      var tempStack := above;
      ghost var i := 0;
      while |tempStack| != 0
        invariant Valid()
        invariant 0 <= i <= |above| && tempStack == above[i..]
        invariant tagStack == old(tagStack) && extrasQ == old(extrasQ)
        invariant errorQ == q0 + Unmatched(above[..i], endTagName)
        invariant diagnostics == ReportAll(d0, Unmatched(above[..i], endTagName))
        decreases |tempStack|
      {
        var errorTag := tempStack[0];
        tempStack := tempStack[1..];
        assert errorTag == above[i] && tempStack == above[i + 1..];
        UnmatchedOneMore(above, i, endTagName);
        if errorTag.tagName != endTagName {
          ReportAllOneMore(d0, Unmatched(above[..i], endTagName), errorTag);
          errorQ := errorQ + [errorTag];
          AddErrorMessage(errorTag.lineNumber, errorTag.originalTag + NotConstructed);
        }
        i := i + 1;
      }
      assert above[..i] == above;
    }

    /** At the end of the document every tag still open is charged, the
        topmost first. */
    method ProcessRemainingStack()
      requires Valid()
      modifies this
      ensures Valid()
      ensures Snapshot() == RemainingStack(old(Snapshot()))
    {
      ghost var st0 := Snapshot();
      ghost var s0 := tagStack;
      while |tagStack| != 0
        invariant Valid()
        invariant |tagStack| <= |s0| && tagStack == s0[..|tagStack|]
        invariant errorQ == st0.errorQ + Reverse(s0[|tagStack|..])
        invariant extrasQ == st0.extrasQ
        invariant diagnostics == ReportAll(st0.messages, Reverse(s0[|tagStack|..]))
        decreases |tagStack|
      {
        ghost var m := |tagStack|;
        var errorTag := tagStack[|tagStack| - 1];
        tagStack := tagStack[..|tagStack| - 1];
        ReverseGrows(s0, m - 1);
        errorQ := errorQ + [errorTag];
        AddErrorMessage(errorTag.lineNumber, errorTag.originalTag + NotConstructed);
      }
      assert s0[0..] == s0;
    }

    /** Empties the error queue and then the extras queue, recording the
        diagnostic of every record. */
    method ReportQueueErrors()
      requires Valid()
      modifies this
      ensures Valid()
      ensures Snapshot() == ReportQueues(old(Snapshot()))
    {
      ghost var st0 := Snapshot();
      ghost var i := 0;
      while |errorQ| != 0
        invariant Valid()
        invariant 0 <= i <= |st0.errorQ| && errorQ == st0.errorQ[i..]
        invariant tagStack == st0.stack && extrasQ == st0.extrasQ
        invariant diagnostics == ReportAll(st0.messages, st0.errorQ[..i])
        decreases |errorQ|
      {
        var errorTag := errorQ[0];
        errorQ := errorQ[1..];
        assert st0.errorQ[i..][1..] == st0.errorQ[i + 1..];
        assert st0.errorQ[..i + 1] == st0.errorQ[..i] + [errorTag];
        ReportAllOneMore(st0.messages, st0.errorQ[..i], errorTag);
        AddErrorMessage(errorTag.lineNumber, errorTag.originalTag + NotConstructed);
        i := i + 1;
      }
      assert st0.errorQ[..i] == st0.errorQ;
      ghost var d1 := diagnostics;
      i := 0;
      while |extrasQ| != 0
        invariant Valid()
        invariant 0 <= i <= |st0.extrasQ| && extrasQ == st0.extrasQ[i..]
        invariant tagStack == st0.stack && errorQ == []
        invariant diagnostics == ReportAll(d1, st0.extrasQ[..i])
        decreases |extrasQ|
      {
        var extraTag := extrasQ[0];
        extrasQ := extrasQ[1..];
        assert st0.extrasQ[i..][1..] == st0.extrasQ[i + 1..];
        assert st0.extrasQ[..i + 1] == st0.extrasQ[..i] + [extraTag];
        ReportAllOneMore(d1, st0.extrasQ[..i], extraTag);
        AddErrorMessage(extraTag.lineNumber, extraTag.originalTag + NotConstructed);
        i := i + 1;
      }
      assert st0.extrasQ[..i] == st0.extrasQ;
    }

    /** Matches the two queues front to front; the verdict is whether no
        diagnostic was recorded. */
    method ProcessQueues() returns (ok: bool)
      requires Valid()
      modifies this
      ensures Valid()
      ensures (ok, Snapshot()) == Reconcile(old(Snapshot()))
    {
      while |errorQ| != 0 || |extrasQ| != 0
        invariant Valid()
        invariant Reconcile(Snapshot()) == Reconcile(old(Snapshot()))
        decreases |errorQ| + |extrasQ|
      {
        if (|errorQ| == 0) != (|extrasQ| == 0) {
          ReportQueueErrors();
          return false;
        } else if |errorQ| != 0 && |extrasQ| != 0 {
          if errorQ[0].tagName != extrasQ[0].tagName {
            var errorTag := errorQ[0];
            errorQ := errorQ[1..];
            AddErrorMessage(errorTag.lineNumber, errorTag.originalTag + NotConstructed);
          } else {
            errorQ := errorQ[1..];
            extrasQ := extrasQ[1..];
          }
        }
      }
      ok := |errorMessages| == 0;
    }

    /** The report: the success sentence, or every diagnostic line followed
        by a line break. */
    method GetErrorMessage() returns (s: string)
      ensures s == Report(errorMessages)
    {
      if |errorMessages| == 0 {
        return Success;
      }
      s := "";
      var i := 0;
      while i < |errorMessages|
        invariant 0 <= i <= |errorMessages|
        invariant s == Lines(errorMessages[..i])
      {
        assert errorMessages[..i + 1][..i] == errorMessages[..i];
        s := s + errorMessages[i] + "\n";
        i := i + 1;
      }
      assert errorMessages[..i] == errorMessages;
    }

    /** Validates a document given as its tags in order: resets the object,
        reads every tag, charges the tags left open and reconciles the
        queues. */
    method ParseTokens(tokens: seq<Token>) returns (ok: bool)
      modifies this
      ensures Valid()
      ensures (ok, Snapshot()) == Validate(tokens)
      ensures ok <==> errorMessages == []
    {
      tagStack := [];
      errorQ := [];
      extrasQ := [];
      errorMessages := [];
      diagnostics := [];
      var i := 0;
      while i < |tokens|
        invariant Valid()
        invariant 0 <= i <= |tokens|
        invariant Snapshot() == Scan(Initial, tokens[..i])
      {
        assert tokens[..i + 1][..i] == tokens[..i];
        ProcessTag(tokens[i]);
        i := i + 1;
      }
      assert tokens[..i] == tokens;
      ProcessRemainingStack();
      ok := ProcessQueues();
    }
  }

  // ---------------------------------------------------------------------
  // Steps of the loops above

  /** Reversing one more element from the left end of `s[k..]` appends it;
      charging it extends the charged records and the diagnostics by one. */
  lemma ReverseGrows(s: seq<TagInfo>, k: nat)
    requires k < |s|
    ensures Reverse(s[k..]) == Reverse(s[k + 1..]) + [s[k]]
    ensures forall messages: seq<Message> ::
      ReportAll(messages, Reverse(s[k..])) == AddMessage(ReportAll(messages, Reverse(s[k + 1..])), Diagnostic(s[k]))
  {
    assert s[k..][1..] == s[k + 1..];
    var r := Reverse(s[k + 1..]);
    assert (r + [s[k]])[..|r|] == r;
  }

  /** Popping one more record off the temporary stack adds it to the
      unmatched records unless it has the name searched for. */
  lemma UnmatchedOneMore(ts: seq<TagInfo>, i: nat, name: string)
    requires i < |ts|
    ensures var u := Unmatched(ts[..i], name);
      Unmatched(ts[..i + 1], name) == if ts[i].tagName == name then u else u + [ts[i]]
  {
    assert ts[..i + 1][..i] == ts[..i];
    var u := Unmatched(ts[..i], name);
    if ts[i].tagName == name {
      assert u + [] == u;
    }
  }

  /** Reporting one more record adds its diagnostic. */
  lemma ReportAllOneMore(messages: seq<Message>, ts: seq<TagInfo>, t: TagInfo)
    ensures ReportAll(messages, ts + [t]) == AddMessage(ReportAll(messages, ts), Diagnostic(t))
  {
    assert (ts + [t])[..|ts|] == ts;
  }

  /** A search that meets no record with the name changes nothing. */
  lemma SearchMissing(st: State, name: string)
    requires forall j :: 0 <= j < |st.stack| ==> st.stack[j].tagName != name
    ensures SearchStack(st, name) == (false, st)
  {
  }

  /** A search that meets the name at position `k`, having seen no other
      record with the name above it, is what `SearchStack` describes. */
  lemma SearchFound(st: State, k: nat, name: string)
    requires k < |st.stack| && st.stack[k].tagName == name
    requires forall j :: k < j < |st.stack| ==> st.stack[j].tagName != name
    ensures SearchStack(st, name) == (true, ChargeAll(st.(stack := st.stack[..k]), Unmatched(st.stack[k..], name)))
  {
    assert TopmostNamed(st.stack, name) == k by {
      TopmostNamedIsTopmost(st.stack, name);
      assert st.stack[k] in st.stack;
    }
    UnmatchedAboveTopmost(st.stack[k..], name);
    assert st.stack[k..][1..] == st.stack[k + 1..];
  }
}
