# XML tag validator ("Kitty's algorithm") and its containers, in Dafny

This project models the core of a small Java XML well-formedness validator and
proves properties of the model. The validator reads the tags of a document in
order, line by line. It keeps three structures:

- a stack of open start tags;
- an error queue (`errorQ`);
- an extras queue (`extrasQ`).

It decides each end tag by a fixed four-way rule. At the end of the document
it charges every tag still open and reconciles the two queues. Every charge
adds the line `Error at line: <n> <tag> is not constructed correctly.` to a
list of diagnostics, at most once per distinct line. The document is well
formed exactly when that list stays empty.

The project also models the hand-written containers that the validator is built
on:

- `MyArrayList`, a growable array;
- `MyStack`, a LIFO stack over `MyArrayList`;
- `MyDLL` and `MyDLLNode`, a doubly linked list;
- `MyQueue`, a FIFO queue over `MyDLL`.

Files and modules:

- `lang.dfy` (`Lang`) defines Java's vocabulary:
  - `Nullable<T>` for a reference that may be `null`;
  - the exceptions the containers throw;
  - `Result<T>` and `Outcome` for completion by return or by throw.
- `seqs.dfy` (`Seqs`) holds sequence helpers: first and last index, reverse, and distinctness.
- `my_array_list.dfy` (`ArrayLists`), `my_stack.dfy` (`Stacks`), `my_dll.dfy` (`LinkedLists`) and `my_queue.dfy` (`Queues`) hold the containers.
  - Each container is a class with a ghost `Contents` sequence and a ghost `Repr` footprint.
  - `MyArrayList` keeps its real backing `array`, shifted in place. Its invariant says the slots past `size` are `null`.
  - `MyDLL` keeps real `MyDLLNode` objects linked by `next` and `previous`. A ghost `Nodes` sequence ties every link to the position of its node.
  - Every method is proved against `Contents`, including each exception path.
- `tag_names.dfy` (`TagNames`) models `extractTagName` and the Java string operations it uses.
  - It proves that the extracted name is exactly the tag's name `n` for the tags `<n>`, `</n>`, `<n/>` and `<n` followed by attributes that begin with a space.
  - A start tag whose attributes begin with another whitespace character, such as a tab, is accepted by the start-tag pattern but is not covered by this result. Its name is not cut there (see below).
- `messages.dfy` (`Diagnostics`) defines the text of a diagnostic and of the final report.
  - It proves that decimal line numbers read back correctly.
  - It proves that two diagnostics with equal text are the same diagnostic, so removing duplicate texts removes duplicate diagnostics.
- `kitty.dfy` (`Kitty`) states the validator's rules as functions on a value `State` (stack, error queue, extras queue, diagnostics). It proves:
  - the run invariant: diagnostics never repeat, and every queued record has its diagnostic;
  - the verdict: a document is accepted exactly when reading it leaves no tag open and records no diagnostic;
  - that every document made of properly nested elements is accepted with no diagnostic. Each element needs a valid name, and attributes that begin with a space, hold no `>` or line break, and do not end in `/`.
- `xml_parser.dfy` (`Validator`) holds the class `XMLParser`.
  - Its fields are updated step by step with the same loops as the Java methods.
  - Each method is proved to change the object exactly as the corresponding `Kitty` function changes the abstract state.

Tokens reach the model already classified. A `Kitty.Token` carries the tag's text, its line, and the verdicts of the four classifiers.

Where the prose description and the code disagree, the model follows the code:

- `extractTagName` cuts the name at the first space character (`indexOf(' ')`), not at the first whitespace character. A start tag such as `<a\tb="1">` therefore yields the name `a\tb="1"`.
- `String.trim` strips every character up to U+0020, not only blanks.

## Model

| member | source | states |
|---|---|---|
| Seqs.FirstIndexOf | assignment2StartingCode/src/appDomain/XMLParser.java:399 | `indexOf`: -1 exactly when the element is absent; otherwise the position of an occurrence with no earlier occurrence |
| Seqs.LastIndexOf | assignment2StartingCode/src/implementations/MyStack.java:125-129 | -1 exactly when absent; otherwise the position of an occurrence with no later occurrence (the topmost match of the stack search) |
| Seqs.Reverse | assignment2StartingCode/src/implementations/MyStack.java:59-66 | same length, element `i` is element `n-1-i` of the input (top-to-bottom order of a bottom-to-top list) |
| Seqs.InsertKeepsDistinct | assignment2StartingCode/src/implementations/MyDLL.java:68-75 | inserting a fresh element into a repeat-free sequence keeps it repeat-free (a new node is not yet in the list) |
| Seqs.RemoveKeepsDistinct | assignment2StartingCode/src/implementations/MyDLL.java:141-150 | removing one position of a repeat-free sequence keeps it repeat-free |
| ArrayLists.MyArrayList.constructor | assignment2StartingCode/src/implementations/MyArrayList.java:18-21 | an empty list over a backing array of capacity 10 |
| ArrayLists.MyArrayList.EnsureCapacity | assignment2StartingCode/src/implementations/MyArrayList.java:25-34 | capacity becomes at least the minimum; the array is kept when already large enough, otherwise replaced by a fresh one of length max(2·old, minimum); contents unchanged |
| ArrayLists.MyArrayList.Size | assignment2StartingCode/src/implementations/MyArrayList.java:49-51 | the number of elements |
| ArrayLists.MyArrayList.Clear | assignment2StartingCode/src/implementations/MyArrayList.java:54-57 | the list becomes empty, the same backing array is kept, and every slot is null again |
| ArrayLists.MyArrayList.AddAt | assignment2StartingCode/src/implementations/MyArrayList.java:60-73 | null throws NullPointerException; an index outside 0..size throws IndexOutOfBoundsException; otherwise the contents become `s[..i] + [x] + s[i..]`; an exception path changes nothing |
| ArrayLists.MyArrayList.ShiftRight | assignment2StartingCode/src/implementations/MyArrayList.java:67-68 | slots `index+1..size` receive the old slots `index..size-1`; all other slots keep their values |
| ArrayLists.MyArrayList.Add | assignment2StartingCode/src/implementations/MyArrayList.java:76-82 | null throws and changes nothing; otherwise the element is appended |
| ArrayLists.MyArrayList.Get | assignment2StartingCode/src/implementations/MyArrayList.java:99-102 | element `i` when `0 <= i < size`, otherwise IndexOutOfBoundsException |
| ArrayLists.MyArrayList.RemoveAt | assignment2StartingCode/src/implementations/MyArrayList.java:105-117 | out of range throws and changes nothing; otherwise returns `s[i]`, the contents become `s[..i] + s[i+1..]`, the freed slot is null and the backing array is the same |
| ArrayLists.MyArrayList.RemoveElement | assignment2StartingCode/src/implementations/MyArrayList.java:120-128 | null throws; an absent element returns null and changes nothing; otherwise the first equal element is removed and returned |
| ArrayLists.MyArrayList.Set | assignment2StartingCode/src/implementations/MyArrayList.java:131-138 | null throws; out of range throws; otherwise returns the old element and changes only position `i` |
| ArrayLists.MyArrayList.IsEmpty | assignment2StartingCode/src/implementations/MyArrayList.java:141-143 | true exactly when there is no element |
| ArrayLists.MyArrayList.Contains | assignment2StartingCode/src/implementations/MyArrayList.java:146-153 | null throws; otherwise true exactly when an equal element is stored |
| ArrayLists.MyArrayList.ToArray | assignment2StartingCode/src/implementations/MyArrayList.java:173-177 | a fresh array of length size holding the elements in order |
| Stacks.MyStack.constructor | assignment2StartingCode/src/implementations/MyStack.java:20-22 | an empty stack |
| Stacks.MyStack.Push | assignment2StartingCode/src/implementations/MyStack.java:25-30 | null throws NullPointerException and changes nothing; otherwise the element becomes the new top |
| Stacks.MyStack.Pop | assignment2StartingCode/src/implementations/MyStack.java:33-38 | on an empty stack throws EmptyStackException and changes nothing; otherwise returns the top and removes it |
| Stacks.MyStack.Peek | assignment2StartingCode/src/implementations/MyStack.java:41-46 | on an empty stack throws EmptyStackException; otherwise the top; the stack is not changed |
| Stacks.MyStack.Clear | assignment2StartingCode/src/implementations/MyStack.java:49-51 | the stack becomes empty |
| Stacks.MyStack.IsEmpty | assignment2StartingCode/src/implementations/MyStack.java:54-56 | true exactly when there is no element |
| Stacks.MyStack.Size | assignment2StartingCode/src/implementations/MyStack.java:163-165 | the number of elements |
| Stacks.MyStack.ToArray | assignment2StartingCode/src/implementations/MyStack.java:59-66 | a fresh array of length size holding the elements from the top to the bottom |
| Stacks.MyStack.Contains | assignment2StartingCode/src/implementations/MyStack.java:110-115 | null throws; otherwise true exactly when an equal element is on the stack |
| Stacks.MyStack.Search | assignment2StartingCode/src/implementations/MyStack.java:118-131 | -1 for null or an absent element; otherwise the 1-based distance from the top of the topmost equal element |
| Stacks.PushThenPeek | assignment2StartingCode/src/implementations/MyStack.java:25-46 | after a push, peek returns the pushed element and the stack is one element taller |
| Stacks.PushThenPop | assignment2StartingCode/src/implementations/MyStack.java:25-38 | a push followed by a pop returns the pushed element and restores the previous contents (LIFO) |
| LinkedLists.MyDLLNode.constructor | assignment2StartingCode/src/implementations/MyDLLNode.java:16-20 | the node holds the element with null next and previous links |
| LinkedLists.MyDLLNode.WithLinks | assignment2StartingCode/src/implementations/MyDLLNode.java:28-32 | the node holds exactly the given element, previous link and next link |
| LinkedLists.MyDLLNode.SetElement | assignment2StartingCode/src/implementations/MyDLLNode.java:39-41 | only the element field changes, to the given value |
| LinkedLists.MyDLLNode.SetNext | assignment2StartingCode/src/implementations/MyDLLNode.java:47-49 | only the next link changes |
| LinkedLists.MyDLLNode.SetPrevious | assignment2StartingCode/src/implementations/MyDLLNode.java:55-57 | only the previous link changes |
| LinkedLists.MyDLL.constructor | assignment2StartingCode/src/implementations/MyDLL.java:19-23 | an empty list with null head and tail |
| LinkedLists.MyDLL.Size | assignment2StartingCode/src/implementations/MyDLL.java:26-28 | the number of elements |
| LinkedLists.MyDLL.IsEmpty | assignment2StartingCode/src/implementations/MyDLL.java:196-198 | true exactly when there is no element |
| LinkedLists.MyDLL.Clear | assignment2StartingCode/src/implementations/MyDLL.java:31-35 | head and tail become null, size 0, the list empty |
| LinkedLists.MyDLL.GetNodeAt | assignment2StartingCode/src/implementations/MyDLL.java:269-286 | the node at position `i` from the head, whether the walk starts at the head or at the tail |
| LinkedLists.MyDLL.AddAt | assignment2StartingCode/src/implementations/MyDLL.java:38-79 | null throws NullPointerException; an index outside 0..size throws IndexOutOfBoundsException; otherwise the contents become `s[..i] + [x] + s[i..]` with every link consistent |
| LinkedLists.MyDLL.LinkFirst | assignment2StartingCode/src/implementations/MyDLL.java:56-60 | on a non-empty list a new head node holds the element in front of the old contents |
| LinkedLists.MyDLL.LinkLast | assignment2StartingCode/src/implementations/MyDLL.java:62-66 | on a non-empty list a new tail node holds the element after the old contents |
| LinkedLists.MyDLL.LinkBefore | assignment2StartingCode/src/implementations/MyDLL.java:68-75 | a new node between position `i-1` and position `i`; the contents become `s[..i] + [x] + s[i..]` |
| LinkedLists.MyDLL.Add | assignment2StartingCode/src/implementations/MyDLL.java:82-87 | null throws and changes nothing; otherwise the element is appended |
| LinkedLists.MyDLL.Get | assignment2StartingCode/src/implementations/MyDLL.java:105-112 | element `i` from the head when `0 <= i < size`, otherwise IndexOutOfBoundsException |
| LinkedLists.MyDLL.RemoveAt | assignment2StartingCode/src/implementations/MyDLL.java:115-154 | out of range throws and changes nothing; otherwise returns `s[i]` and the contents become `s[..i] + s[i+1..]` with every link consistent |
| LinkedLists.MyDLL.UnlinkFirst | assignment2StartingCode/src/implementations/MyDLL.java:129-133 | on a list of two or more, returns the head element and drops it |
| LinkedLists.MyDLL.UnlinkLast | assignment2StartingCode/src/implementations/MyDLL.java:135-139 | on a list of two or more, returns the tail element and drops it |
| LinkedLists.MyDLL.Unlink | assignment2StartingCode/src/implementations/MyDLL.java:141-150 | for an inner position, returns its element and links its neighbours to each other |
| LinkedLists.MyDLL.RemoveElement | assignment2StartingCode/src/implementations/MyDLL.java:157-176 | null throws; an absent element returns null and changes nothing; otherwise the first equal element is removed and returned |
| LinkedLists.MyDLL.Set | assignment2StartingCode/src/implementations/MyDLL.java:179-193 | null throws; out of range throws; otherwise returns the old element and changes only position `i` |
| LinkedLists.MyDLL.Contains | assignment2StartingCode/src/implementations/MyDLL.java:201-215 | null throws; otherwise true exactly when an equal element is in the list |
| LinkedLists.MyDLL.ToArray | assignment2StartingCode/src/implementations/MyDLL.java:246-257 | a fresh array of length size holding the elements from the head to the tail |
| Queues.MyQueue.constructor | assignment2StartingCode/src/implementations/MyQueue.java:11-13 | an empty queue |
| Queues.MyQueue.Enqueue | assignment2StartingCode/src/implementations/MyQueue.java:16-21 | null throws NullPointerException and changes nothing; otherwise the element goes to the back |
| Queues.MyQueue.Dequeue | assignment2StartingCode/src/implementations/MyQueue.java:24-29 | on an empty queue throws EmptyQueueException and changes nothing; otherwise returns the front and the queue becomes its tail |
| Queues.MyQueue.Peek | assignment2StartingCode/src/implementations/MyQueue.java:32-37 | on an empty queue throws EmptyQueueException; otherwise the front; the queue is not changed |
| Queues.MyQueue.DequeueAll | assignment2StartingCode/src/implementations/MyQueue.java:40-42 | the queue becomes empty |
| Queues.MyQueue.IsEmpty | assignment2StartingCode/src/implementations/MyQueue.java:45-47 | true exactly when there is no element |
| Queues.MyQueue.Size | assignment2StartingCode/src/implementations/MyQueue.java:102-104 | the number of elements |
| Queues.MyQueue.Contains | assignment2StartingCode/src/implementations/MyQueue.java:50-52 | null throws NullPointerException (through the list); otherwise true exactly when an equal element is queued |
| Queues.MyQueue.Search | assignment2StartingCode/src/implementations/MyQueue.java:55-64 | -1 for null or an absent element; otherwise the 1-based position from the front of the first equal element |
| Queues.MyQueue.ToArray | assignment2StartingCode/src/implementations/MyQueue.java:87-89 | a fresh array holding the elements from the front to the back |
| Queues.EnqueueThenDequeue | assignment2StartingCode/src/implementations/MyQueue.java:16-29 | on an empty queue, enqueue then dequeue returns the element and leaves the queue empty |
| Queues.EnqueueThenPeek | assignment2StartingCode/src/implementations/MyQueue.java:16-37 | after an enqueue the front is unchanged unless the queue was empty (FIFO) |
| TagNames.StripMarkup | assignment2StartingCode/src/appDomain/XMLParser.java:398 | `replaceAll("[<>/]", "")` never lengthens the text and leaves no `<`, `>` or `/` |
| TagNames.TrimLeft | assignment2StartingCode/src/appDomain/XMLParser.java:398 | the left half of `trim()`: never lengthens, and what remains is empty or starts with a character above U+0020 |
| TagNames.TrimRight | assignment2StartingCode/src/appDomain/XMLParser.java:398 | the right half of `trim()`: never lengthens, and what remains is empty or ends with a character above U+0020 |
| TagNames.Trim | assignment2StartingCode/src/appDomain/XMLParser.java:398 | `trim()` never lengthens, and what remains is empty or ends with a character above U+0020 |
| TagNames.CutAtSpace | assignment2StartingCode/src/appDomain/XMLParser.java:399-402 | cutting at `indexOf(' ')` never lengthens and leaves no space |
| TagNames.DropQuestionMark | assignment2StartingCode/src/appDomain/XMLParser.java:403-405 | exactly one character is dropped, and only when the text starts with `?` |
| TagNames.ExtractTagName | assignment2StartingCode/src/appDomain/XMLParser.java:397-407 | the extracted name is no longer than the tag and is empty or ends with a character above U+0020 |
| TagNames.StripMarkupAppend | assignment2StartingCode/src/appDomain/XMLParser.java:398 | removing markup distributes over concatenation |
| TagNames.TrimLeftSuffix | assignment2StartingCode/src/appDomain/XMLParser.java:398 | the left trim is a suffix of the text; it starts with a character above U+0020 or is empty; everything cut off is at most U+0020 |
| TagNames.TrimRightPrefix | assignment2StartingCode/src/appDomain/XMLParser.java:398 | the right trim is a prefix of the text; it ends with a character above U+0020 or is empty; everything cut off is at most U+0020 |
| TagNames.TrimEnds | assignment2StartingCode/src/appDomain/XMLParser.java:406 | `trim()` never lengthens the text, and a non-empty result starts and ends with characters above U+0020 |
| TagNames.TrimKeepsCharacters | assignment2StartingCode/src/appDomain/XMLParser.java:398 | every character of the trimmed text is a character of the text |
| TagNames.CutAtSpaceBeforeSpace | assignment2StartingCode/src/appDomain/XMLParser.java:399-402 | the cut text is a prefix with no space; it is all of the text when there is no space, and otherwise is followed by a space |
| TagNames.ExtractTagNameEnds | assignment2StartingCode/src/appDomain/XMLParser.java:397-407 | a non-empty extracted name starts and ends with characters above U+0020 |
| TagNames.ExtractTagNameCharacters | assignment2StartingCode/src/appDomain/XMLParser.java:397-407 | the extracted name contains no '<', '>', '/' or space |
| TagNames.ExtractTagNameOfWellFormedTag | assignment2StartingCode/src/appDomain/XMLParser.java:29-31 | for `<n>`, `</n>`, `<n/>` and `<n attrs...>` with a valid name `n`, the extracted name is exactly `n` |
| Diagnostics.IntToString | assignment2StartingCode/src/appDomain/XMLParser.java:322 | the line number in decimal: never empty, starts with `-` exactly when negative, holds no space |
| Diagnostics.Render | assignment2StartingCode/src/appDomain/XMLParser.java:322 | the diagnostic line starts with `Error at line: ` and ends with the message text |
| Diagnostics.NatToStringRoundTrip | assignment2StartingCode/src/appDomain/XMLParser.java:322 | reading back the decimal text of a line number gives the number |
| Diagnostics.IntToStringInjective | assignment2StartingCode/src/appDomain/XMLParser.java:322 | different line numbers are written differently |
| Diagnostics.RenderInjective | assignment2StartingCode/src/appDomain/XMLParser.java:322-324 | two diagnostics with the same text have the same line and the same message, so the text comparison compares diagnostics |
| Diagnostics.RenderAllContains | assignment2StartingCode/src/appDomain/XMLParser.java:323 | a written diagnostic is in the written list exactly when the diagnostic is in the list |
| Diagnostics.RenderAllAppend | assignment2StartingCode/src/appDomain/XMLParser.java:324 | writing out one more diagnostic appends its text |
| Diagnostics.Lines | assignment2StartingCode/src/appDomain/XMLParser.java:339-343 | at least one character per diagnostic line, and the text ends with a line break when there is any |
| Diagnostics.Report | assignment2StartingCode/src/appDomain/XMLParser.java:334-344 | the report is the success sentence exactly when there is no diagnostic |
| Diagnostics.LinesAppend | assignment2StartingCode/src/appDomain/XMLParser.java:339-343 | the report of two lists of lines is the report of the first followed by that of the second |
| Kitty.AddMessage | assignment2StartingCode/src/appDomain/XMLParser.java:320-326 | the diagnostic is present afterwards, and at most one line is added |
| Kitty.ReportAll | assignment2StartingCode/src/appDomain/XMLParser.java:292-312 | reporting records adds at most one diagnostic per record |
| Kitty.AddMessageAdds | assignment2StartingCode/src/appDomain/XMLParser.java:320-326 | adding a diagnostic keeps the earlier ones in order, adds at most this one, and never creates a repeat |
| Kitty.ReportAllReports | assignment2StartingCode/src/appDomain/XMLParser.java:292-312 | reporting records keeps the earlier diagnostics, makes every record's diagnostic present and never creates a repeat |
| Kitty.ReportAllKnown | assignment2StartingCode/src/appDomain/XMLParser.java:292-312 | reporting records whose diagnostics are already present changes nothing |
| Kitty.Charge | assignment2StartingCode/src/appDomain/XMLParser.java:179-180 | charging a record queues it as an error and records its diagnostic; the stack and the extras queue are untouched and no diagnostic is lost |
| Kitty.EndTag | assignment2StartingCode/src/appDomain/XMLParser.java:170-194 | an end tag never lengthens the stack, queues at most one extra record and loses no diagnostic |
| Kitty.Step | assignment2StartingCode/src/appDomain/XMLParser.java:143-160 | only a start tag can lengthen the stack, and by one; no tag loses a diagnostic |
| Kitty.Scan | assignment2StartingCode/src/appDomain/XMLParser.java:110-113 | reading `n` tags lengthens the stack by at most `n` and loses no diagnostic |
| Kitty.ChargeAll | assignment2StartingCode/src/appDomain/XMLParser.java:216-223 | charging records appends them to the error queue in order and reports each; the stack and the extras queue are unchanged |
| Kitty.TopmostNamed | assignment2StartingCode/src/appDomain/XMLParser.java:210-225 | the position found holds a record with the name, or is -1 |
| Kitty.TopmostNamedIsTopmost | assignment2StartingCode/src/appDomain/XMLParser.java:210-225 | -1 exactly when no record has the name; no record above the one found has it |
| Kitty.SearchStack | assignment2StartingCode/src/appDomain/XMLParser.java:228-232 | a failed search leaves the whole state unchanged |
| Kitty.SearchStackFinds | assignment2StartingCode/src/appDomain/XMLParser.java:205-239 | the search succeeds exactly when some open tag has the name |
| Kitty.SearchStackSplits | assignment2StartingCode/src/appDomain/XMLParser.java:210-225 | a successful search leaves exactly the records strictly below the topmost match; it discards the match and appends the records above it (none named alike) to the error queue in order, each with its diagnostic; the extras queue is unchanged |
| Kitty.Unmatched | assignment2StartingCode/src/appDomain/XMLParser.java:216-223 | no more records than the temporary stack held |
| Kitty.UnmatchedFilters | assignment2StartingCode/src/appDomain/XMLParser.java:216-223 | every record charged from the temporary stack came from it and lacks the name |
| Kitty.UnmatchedAboveTopmost | assignment2StartingCode/src/appDomain/XMLParser.java:214-223 | when only the matched record has the name, every other record of the temporary stack is charged, in order |
| Kitty.RemainingStack | assignment2StartingCode/src/appDomain/XMLParser.java:245-256 | the stack is emptied onto the error queue, the topmost first; the extras queue is unchanged |
| Kitty.RemainingStackCharges | assignment2StartingCode/src/appDomain/XMLParser.java:245-256 | every open tag ends up queued as an error with its diagnostic recorded; no earlier diagnostic is lost |
| Kitty.ReportQueues | assignment2StartingCode/src/appDomain/XMLParser.java:292-312 | both queues end empty and the stack is unchanged |
| Kitty.ReportQueuesReports | assignment2StartingCode/src/appDomain/XMLParser.java:292-312 | the diagnostic of every queued record is recorded; no earlier diagnostic is lost |
| Kitty.Reconcile | assignment2StartingCode/src/appDomain/XMLParser.java:263-286 | both queues end empty with the stack unchanged; the verdict is true exactly when no diagnostic is recorded |
| Kitty.Validate | assignment2StartingCode/src/appDomain/XMLParser.java:100-118 | after a whole document the stack and both queues are empty; the verdict is true exactly when no diagnostic is recorded |
| Kitty.StepInv | assignment2StartingCode/src/appDomain/XMLParser.java:143-160 | every tag keeps the diagnostics free of repeats and every queued record reported |
| Kitty.ChargeAllInv | assignment2StartingCode/src/appDomain/XMLParser.java:216-223 | charging records keeps that invariant |
| Kitty.ExtraInv | assignment2StartingCode/src/appDomain/XMLParser.java:185-188 | queueing an end tag with no start tag keeps the invariant |
| Kitty.CancelInv | assignment2StartingCode/src/appDomain/XMLParser.java:175-176 | dequeuing the front of the error queue keeps the invariant |
| Kitty.EndTagCancelInv | assignment2StartingCode/src/appDomain/XMLParser.java:175-176 | the second rule (cancel the error queue's front) keeps the invariant |
| Kitty.EndTagChargeInv | assignment2StartingCode/src/appDomain/XMLParser.java:178-180 | the third rule (empty stack: charge the end tag) keeps the invariant |
| Kitty.EndTagSearchInv | assignment2StartingCode/src/appDomain/XMLParser.java:182-189 | the fourth rule (search the stack) keeps the invariant whether or not the search succeeds |
| Kitty.EndTagInv | assignment2StartingCode/src/appDomain/XMLParser.java:170-194 | every rule for an end tag keeps the invariant |
| Kitty.ScanInv | assignment2StartingCode/src/appDomain/XMLParser.java:110-113 | reading any sequence of tags keeps the invariant |
| Kitty.RemainingStackInv | assignment2StartingCode/src/appDomain/XMLParser.java:245-256 | charging the open tags at the end keeps the invariant |
| Kitty.ReconcileKeepsMessages | assignment2StartingCode/src/appDomain/XMLParser.java:263-286 | under the invariant, reconciling the queues records no new diagnostic |
| Kitty.ValidateVerdict | assignment2StartingCode/src/appDomain/XMLParser.java:100-118 | the document is accepted exactly when reading it leaves no tag open and records no diagnostic; the final diagnostics never repeat |
| Kitty.ScanAppend | assignment2StartingCode/src/appDomain/XMLParser.java:110-113 | reading a document in two parts is reading it whole |
| Kitty.ScanOne | assignment2StartingCode/src/appDomain/XMLParser.java:130-133 | reading one tag is one step |
| Kitty.StartTokenPushes | assignment2StartingCode/src/appDomain/XMLParser.java:152-154 | the start tag of a well-formed element pushes the record of its own name, text and line |
| Kitty.EndTagPops | assignment2StartingCode/src/appDomain/XMLParser.java:172-173 | an end tag named like the record on top pops exactly that record; the queues and the diagnostics are unchanged |
| Kitty.EndTokenPops | assignment2StartingCode/src/appDomain/XMLParser.java:156-158 | the end tag of a well-formed element closes the record its start tag pushed |
| Kitty.ElementBalanced | assignment2StartingCode/src/appDomain/XMLParser.java:143-194 | reading a well-formed element from any state returns to that state |
| Kitty.ForestBalanced | assignment2StartingCode/src/appDomain/XMLParser.java:143-194 | reading a sequence of well-formed sibling elements from any state returns to that state |
| Kitty.WellNestedAccepted | assignment2StartingCode/src/appDomain/XMLParser.java:100-118 | a document of properly nested elements with valid names is accepted with no diagnostic |
| Validator.XMLParser.constructor | assignment2StartingCode/src/appDomain/XMLParser.java:85-90 | empty stack, empty queues and no diagnostic |
| Validator.XMLParser.AddErrorMessage | assignment2StartingCode/src/appDomain/XMLParser.java:320-326 | the line `Error at line: <n> <message>` is appended unless that text is already present; the stack and the queues are unchanged |
| Validator.XMLParser.ProcessTag | assignment2StartingCode/src/appDomain/XMLParser.java:143-160 | processing instructions and self-closing tags change nothing; a start tag pushes its record; an end tag follows the end-tag rules |
| Validator.XMLParser.ProcessEndTag | assignment2StartingCode/src/appDomain/XMLParser.java:170-194 | the four rules in order: pop a matching top, cancel a matching error-queue front, charge on an empty stack, or search the stack and queue an extra on failure |
| Validator.XMLParser.SearchStackForMatch | assignment2StartingCode/src/appDomain/XMLParser.java:205-239 | the loop with its temporary stack computes the search: a failure restores the stack exactly; a success cuts the stack below the topmost match and charges the records above it |
| Validator.XMLParser.ChargeUnmatched | assignment2StartingCode/src/appDomain/XMLParser.java:216-223 | emptying the temporary stack appends its records without the name to the error queue, in order, each reported |
| Validator.XMLParser.ProcessRemainingStack | assignment2StartingCode/src/appDomain/XMLParser.java:245-256 | the loop moves the open tags, topmost first, to the error queue, each reported |
| Validator.XMLParser.ReportQueueErrors | assignment2StartingCode/src/appDomain/XMLParser.java:292-312 | both loops empty the error queue, then the extras queue, reporting each record in order |
| Validator.XMLParser.ProcessQueues | assignment2StartingCode/src/appDomain/XMLParser.java:263-286 | the loop computes the reconciliation: both queues end empty and the verdict is true exactly when no diagnostic is recorded |
| Validator.XMLParser.GetErrorMessage | assignment2StartingCode/src/appDomain/XMLParser.java:334-344 | the success sentence when there is no diagnostic, otherwise every diagnostic line followed by a line break |
| Validator.XMLParser.ParseTokens | assignment2StartingCode/src/appDomain/XMLParser.java:100-118 | after the reset and the whole document, the state is that of `Validate`, and the verdict is true exactly when the diagnostics list is empty |

## Left out

- File reading and tag extraction in `parseFile` and `processLine` are left out because they are I/O and a `java.util.regex` scan. The document arrives as a sequence of tokens: each tag's text, its line number, and the verdicts of the four classifiers.
- The classifiers `isProcessingInstruction`, `isSelfClosingTag`, `isStartTag` and `isEndTag` are left out because they wrap library regular expressions. Their verdicts are token fields. `TagNames.ValidName` states the name pattern they share. `Kitty.WellFormedElement` describes elements whose start tag the start-tag pattern accepts and the self-closing test rejects, and whose end tag the end-tag pattern accepts. It covers only attributes that begin with a space.
- `XMLParser` holds its stack and queues as sequence fields updated with the push, pop, enqueue and dequeue of `MyStack` and `MyQueue`, not as references to container objects.
  - The container classes are modelled and proved on their own.
  - Keeping the engine's structures as values keeps its proofs independent of the containers' heap frames.
  - The model therefore does not capture any aliasing between the engine's structures.
- The temporary stack of `searchStackForMatch` is a local sequence held from its top to its bottom. Its inner emptying loop is the helper method `ChargeUnmatched`.
- `XMLParser.diagnostics` is a ghost field recording which line and message each diagnostic line was written from. The Java class keeps only the strings.
- `TagInfo.equals` and `toString` are left out because the engine never calls them; it always compares `tagName` fields explicitly. `TagInfo` is a value datatype.
- The `catch` blocks of `processEndTag`, `searchStackForMatch`, `processRemainingStack`, `processQueues` and `reportQueueErrors` are left out because no exception can reach them. Every dequeue, pop and peek is guarded by an emptiness check, and no `null` is ever enqueued.
- Iterators, `toArray(E[])`, `addAll`, `equals(StackADT)`, `equals(QueueADT)`, `isFull` and `stackOverflow` are left out because they use reflection or iterators, or return a constant that the engine never uses.
- `MyDLLNode`'s getters are left out because the model reads the node fields directly.
- `MyArrayList`'s private `checkElementIndex` and `checkPositionIndex` are inlined as the index tests at the head of each method that calls them.
- Java's 32-bit `int` is modelled as an unbounded integer. Line numbers, sizes and the doubled capacity `elements.length * 2` in `ensureCapacity` never wrap around in the model.
- `ArrayLists.MyArrayList.EnsureCapacity` does not model the allocation failure Java raises for very large capacities.
- `TagNames.Trim` strips every character up to U+0020, as `String.trim` does. Unicode-aware whitespace is not modelled.
- A Dafny `char` is a Unicode scalar value, while a Java `String` holds UTF-16 code units. A character outside the Basic Multilingual Plane is one `char` in the model and a surrogate pair in Java. This changes no result of `trim`, `indexOf(' ')` or `replaceAll("[<>/]", "")`, because surrogates lie above U+0020 and are not markup characters. It does change lengths and indices, which the model counts in scalar values.
- Java's `equals` is modelled as Dafny's `==` in the members below. An element type whose `equals` is not an equivalence, or compares only part of the object, is not captured.
- `ArrayLists.MyArrayList.RemoveElement` compares with `==` (MyArrayList.java line 124). Like Java, it returns the element stored at the position found.
- `ArrayLists.MyArrayList.Contains` compares with `==` (MyArrayList.java line 150).
- `LinkedLists.MyDLL.RemoveElement` compares with `==` (MyDLL.java line 167). Like Java, it returns the element stored at the position found.
- `LinkedLists.MyDLL.Contains` compares with `==` (MyDLL.java line 208).
- `Stacks.MyStack.Contains` compares with `==` through the list's `contains`.
- `Stacks.MyStack.Search` compares with `==` (MyStack.java line 126).
- `Queues.MyQueue.Contains` compares with `==` through the list's `contains`.
- `Queues.MyQueue.Search` compares with `==` (MyQueue.java line 60).
