/**
 * What the document loop of `Generate` does, over all inputs: which
 * documents reach the decoder and in which order, when the run succeeds,
 * where it stops, and what has been printed by then.
 */
module RunProps {
  import opened Options
  import opened SeqUtil
  import opened StringUtil
  import opened Types
  import opened Generator

  /** The documents that are not skipped, in input order. */
  function NonEmpty(docs: seq<string>): (kept: seq<string>)
    ensures |kept| <= |docs|
    ensures forall i :: 0 <= i < |kept| ==> kept[i] != "" && kept[i] in docs
    ensures forall i :: 0 <= i < |docs| && docs[i] != "" ==> docs[i] in kept
    ensures SubsequenceOf(kept, docs)
  {
    if docs == [] then []
    else
      var rest := NonEmpty(docs[1..]);
      assert docs == [docs[0]] + docs[1..];
      assert forall i :: 0 < i < |docs| ==> docs[i] == docs[1..][i - 1];
      SubsequencePrepend(docs[0], rest, docs[1..]);
      if docs[0] == "" then rest
      else [docs[0]] + rest
  }

  /** Every non-empty document is kept as many times as it occurs, the empty one not at all. */
  lemma {:induction false} NonEmptyCount(docs: seq<string>)
    ensures forall d :: multiset(NonEmpty(docs))[d] == if d == "" then 0 else multiset(docs)[d]
    decreases |docs|
  {
    if docs != [] {
      NonEmptyCount(docs[1..]);
      assert docs == [docs[0]] + docs[1..];
      assert multiset(docs) == multiset{docs[0]} + multiset(docs[1..]);
    }
  }

  /** A document that is printed rather than ending the run: with `ProcessWith`, one that decodes and whose generated source formats. */
  predicate Succeeds(d: string, process: string -> Outcome)
  {
    process(d).Printed?
  }

  predicate AllSucceed(ds: seq<string>, process: string -> Outcome)
  {
    forall i :: 0 <= i < |ds| ==> Succeeds(ds[i], process)
  }

  /** What `fmt.Println` prints for documents that all succeed: each formatted text on a line of its own. */
  function Output(ds: seq<string>, process: string -> Outcome): string
    requires AllSucceed(ds, process)
  {
    if ds == [] then ""
    else process(ds[0]).printed + NewLineBytes + Output(ds[1..], process)
  }

  /** How many decoded documents were also printed: all of them, or all but the failing last one. */
  function Completed(r: Run): (n: nat)
    ensures n <= |r.decoded|
  {
    if r.err.Some? && |r.decoded| >= 1 then |r.decoded| - 1 else |r.decoded|
  }

  /**
   * The trace of a run: the decoded documents are the first non-empty
   * documents, all of them when there is no error; with an error the last
   * one decoded is the one that failed, with that error; every document
   * before it succeeded, and its output has been printed.
   */
  lemma {:induction false} RunDocumentsTrace(docs: seq<string>, process: string -> Outcome)
    ensures var r := RunDocuments(docs, process);
      |r.decoded| <= |NonEmpty(docs)| && r.decoded == NonEmpty(docs)[..|r.decoded|]
    ensures var r := RunDocuments(docs, process);
      r.err.None? ==> r.decoded == NonEmpty(docs)
    ensures var r := RunDocuments(docs, process);
      r.err.Some? ==> |r.decoded| >= 1 && process(r.decoded[|r.decoded| - 1]) == Failed(r.err.value)
    ensures var r := RunDocuments(docs, process);
      && AllSucceed(r.decoded[..Completed(r)], process)
      && r.stdout == Output(r.decoded[..Completed(r)], process)
    decreases |docs|
  {
    var r := RunDocuments(docs, process);
    if docs == [] {
    } else if docs[0] == "" {
      RunDocumentsTrace(docs[1..], process);
    } else if process(docs[0]).Printed? {
      RunDocumentsTrace(docs[1..], process);
      var rest := RunDocuments(docs[1..], process);
      TraceStep(docs[0], process(docs[0]).printed, rest, NonEmpty(docs[1..]), process);
    }
  }

  /** The step of the trace for a first document that succeeds. */
  lemma TraceStep(d: string, text: string, rest: Run, kept: seq<string>, process: string -> Outcome)
    requires process(d) == Printed(text)
    requires |rest.decoded| <= |kept| && rest.decoded == kept[..|rest.decoded|]
    requires rest.err.Some? ==> |rest.decoded| >= 1
    requires AllSucceed(rest.decoded[..Completed(rest)], process)
    requires rest.stdout == Output(rest.decoded[..Completed(rest)], process)
    ensures var r := Run(text + NewLineBytes + rest.stdout, [d] + rest.decoded, rest.err);
      && |r.decoded| <= |[d] + kept| && r.decoded == ([d] + kept)[..|r.decoded|]
      && Completed(r) == Completed(rest) + 1
      && r.decoded[..Completed(r)] == [d] + rest.decoded[..Completed(rest)]
      && AllSucceed(r.decoded[..Completed(r)], process)
      && r.stdout == Output(r.decoded[..Completed(r)], process)
  {
    var r := Run(text + NewLineBytes + rest.stdout, [d] + rest.decoded, rest.err);
    var done := rest.decoded[..Completed(rest)];
    assert r.decoded == ([d] + kept)[..|r.decoded|];
    assert r.decoded[..Completed(r)] == [d] + done;
    assert ([d] + done)[1..] == done;
  }

  /**
   * A run succeeds exactly when every non-empty document decodes and
   * formats. Then every non-empty document was decoded once, in order, and
   * the output is their formatted texts, each on its own line.
   */
  lemma RunSucceedsIff(docs: seq<string>, process: string -> Outcome)
    ensures RunDocuments(docs, process).err.None? <==> AllSucceed(NonEmpty(docs), process)
    ensures var r := RunDocuments(docs, process);
      r.err.None? ==> r.decoded == NonEmpty(docs) && r.stdout == Output(NonEmpty(docs), process)
  {
    var r := RunDocuments(docs, process);
    var kept := NonEmpty(docs);
    RunDocumentsTrace(docs, process);
    if r.err.Some? {
      var m := |r.decoded| - 1;
      assert r.decoded[m] == kept[m];
      assert !Succeeds(kept[m], process);
    } else {
      assert r.decoded[..|r.decoded|] == r.decoded;
    }
  }

  /**
   * The run stops at the first document that fails: the documents up to and
   * including it were decoded, none after it, the error is that document's,
   * and the output of the documents before it has already been printed.
   */
  lemma RunStopsAtFirstFailure(docs: seq<string>, process: string -> Outcome, k: nat)
    requires k < |NonEmpty(docs)|
    requires !Succeeds(NonEmpty(docs)[k], process)
    requires AllSucceed(NonEmpty(docs)[..k], process)
    ensures var r := RunDocuments(docs, process);
      && r.err == Some(process(NonEmpty(docs)[k]).message)
      && r.decoded == NonEmpty(docs)[..k + 1]
      && r.stdout == Output(NonEmpty(docs)[..k], process)
  {
    var r := RunDocuments(docs, process);
    var kept := NonEmpty(docs);
    RunDocumentsTrace(docs, process);
    RunSucceedsIff(docs, process);
    assert !AllSucceed(kept, process);
    var m := |r.decoded| - 1;
    assert r.decoded == kept[..m + 1];
    assert r.decoded[..m] == kept[..m];
    FirstFailureUnique(kept, m, k, process);
  }

  /** Two documents that are each the first to fail are the same one. */
  lemma FirstFailureUnique(kept: seq<string>, m: nat, k: nat, process: string -> Outcome)
    requires m < |kept| && k < |kept|
    requires AllSucceed(kept[..m], process) && !Succeeds(kept[m], process)
    requires AllSucceed(kept[..k], process) && !Succeeds(kept[k], process)
    ensures m == k
  {
  }

  /**
   * The documents are the pieces of the input between the delimiters:
   * joined back with the delimiter they give the input, and none of them
   * contains the delimiter.
   */
  lemma InputDocuments(input: string)
    ensures Join(Split(input, YamlDocumentDelimiter), YamlDocumentDelimiter) == input
    ensures forall i :: 0 <= i < |Split(input, YamlDocumentDelimiter)| ==>
      !Contains(Split(input, YamlDocumentDelimiter)[i], YamlDocumentDelimiter)
  {
    JoinSplit(input, YamlDocumentDelimiter);
    forall i | 0 <= i < |Split(input, YamlDocumentDelimiter)|
      ensures !Contains(Split(input, YamlDocumentDelimiter)[i], YamlDocumentDelimiter)
    {
      SplitPartsFree(input, YamlDocumentDelimiter, i);
    }
  }

  /** A document decodes to an object whose generated source the formatter accepts. */
  ghost predicate DecodesAndFormats(d: string, decode: string -> Decoded, format: string -> Formatted)
    requires DecoderYieldsEncodable(decode)
  {
    decode(d).Decoded? && format(Enc(decode(d).obj)).Formatted?
  }

  /**
   * One document's step: it succeeds exactly when the document decodes and
   * its generated source formats, and then prints the formatted text; a
   * decode error and a format error fail with their wrapped messages.
   */
  lemma ProcessOutcome(d: string, decode: string -> Decoded, format: string -> Formatted)
    requires DecoderYieldsEncodable(decode)
    ensures Succeeds(d, ProcessWith(decode, format)) <==> DecodesAndFormats(d, decode, format)
    ensures decode(d).DecodeError? ==>
      ProcessWith(decode, format)(d) == Failed("failed to deserialize document: " + decode(d).decodeMessage)
    ensures decode(d).Decoded? && format(Enc(decode(d).obj)).FormatError? ==>
      ProcessWith(decode, format)(d) == Failed("failed to format generated source code: " + format(Enc(decode(d).obj)).formatMessage)
    ensures DecodesAndFormats(d, decode, format) ==>
      ProcessWith(decode, format)(d) == Printed(format(Enc(decode(d).obj)).text)
  {
  }

  /**
   * `Generate` returns no error exactly when every non-empty document of the
   * input decodes and its generated source formats.
   */
  lemma GenerateSucceedsIff(input: string, decode: string -> Decoded, format: string -> Formatted)
    requires DecoderYieldsEncodable(decode)
    ensures var docs := NonEmpty(Split(input, YamlDocumentDelimiter));
      RunDocuments(Split(input, YamlDocumentDelimiter), ProcessWith(decode, format)).err.None? <==>
        forall i :: 0 <= i < |docs| ==> DecodesAndFormats(docs[i], decode, format)
  {
    var docs := NonEmpty(Split(input, YamlDocumentDelimiter));
    var process := ProcessWith(decode, format);
    RunSucceedsIff(Split(input, YamlDocumentDelimiter), process);
    forall i | 0 <= i < |docs|
      ensures Succeeds(docs[i], process) <==> DecodesAndFormats(docs[i], decode, format)
    {
      ProcessOutcome(docs[i], decode, format);
    }
  }
}
