/**
 * The generator's core: `dump`, which writes a decoded Kubernetes object as a
 * Go composite literal into a writer, and the document loop of `Generate`.
 *
 * A `reflect.Value` becomes the datatype `Value`, one constructor per kind
 * that `dump` distinguishes. `Enc(v)` is the text `dump` appends for `v`;
 * the method `Dump` writes it piece by piece into a `Buffer`, as the source
 * does, and is proved to append exactly `Enc(v)`.
 */
module Generator {
  import opened Options
  import opened SeqUtil
  import opened StringUtil
  import opened Strconv
  import opened Types

  /**
   * A runtime value as `dump` sees it. Type strings are what
   * `reflect.Type.String()` prints (`v1.Pod`, `[]v1.Container`, `int32`);
   * package paths are what `PkgPath()` gives (`k8s.io/api/core/v1`, or `""`
   * for unnamed and built-in types).
   */
  datatype Value =
    | Invalid                                      // the zero reflect.Value: no value at all
    | NilPtr(elemType: string)                     // a nil pointer
    | Ptr(elemType: string, elem: Value)           // a non-nil pointer and what it points to
    | Str(s: string)
    | Bool(b: bool)
    | Int(i: int)                                  // int, int8 .. int64
    | Uint(u: nat)                                 // uint, uint8 .. uint64
    | Float32(bits32: bv32, text32: string)        // the IEEE 754 bits, and what FormatFloat(_, 'g', -1, 32) prints
    | Float64(bits64: bv64, text64: string)        // the IEEE 754 bits, and what FormatFloat(_, 'g', -1, 64) prints
    | NilSlice(typeName: string, elemPkgPath: string)
    | Slice(typeName: string, elemPkgPath: string, elems: seq<Value>)
    | NilMap(typeName: string, pkgPath: string)
    | Map(typeName: string, pkgPath: string, pairs: seq<Pair>)            // in MapKeys order
    | Struct(typeName: string, pkgPath: string, fields: seq<Field>)        // in declaration order
    | Unhandled(typeName: string, zero: bool)      // interface, array, chan, func, complex, uintptr, unsafe.Pointer: no case in dump

  /** A struct field: its name, whether it is exported, and its value. A blank field is named `_`. */
  datatype Field = Field(name: string, exported: bool, value: Value)

  /** A map key and the value `MapIndex` gives for it. */
  datatype Pair = Pair(key: Value, val: Value)

  /** The sign bits of the IEEE 754 single and double formats. */
  const SignBit32: bv32 := 0x8000_0000
  const SignBit64: bv64 := 0x8000_0000_0000_0000

  /**
   * `reflect.Value.IsZero` as of Go 1.22 (the `for i := range n` loops of
   * `dump` need at least that version): nil for pointers, slices and maps
   * (an empty but non-nil slice or map is not zero), the empty string, 0,
   * false, a float equal to 0 (so +0 and -0, whose bits differ only in the
   * sign), and for a struct every field zero except blank `_` fields, which
   * are ignored as `==` ignores them.
   */
  predicate IsZero(v: Value) {
    match v
    case Invalid => false
    case NilPtr(_) => true
    case Ptr(_, _) => false
    case Str(s) => s == ""
    case Bool(b) => !b
    case Int(i) => i == 0
    case Uint(u) => u == 0
    case Float32(bits, _) => bits == 0 || bits == SignBit32
    case Float64(bits, _) => bits == 0 || bits == SignBit64
    case NilSlice(_, _) => true
    case Slice(_, _, _) => false
    case NilMap(_, _) => true
    case Map(_, _, _) => false
    case Struct(_, _, fs) => forall i :: 0 <= i < |fs| ==> fs[i].name == "_" || IsZero(fs[i].value)
    case Unhandled(_, zero) => zero
  }

  /** A struct field that `dump` writes: exported and not zero. */
  predicate Shown(f: Field) {
    f.exported && !IsZero(f.value)
  }

  /**
   * `dump` can write `v` without panicking: it never reaches a nil pointer
   * (whose `Elem().Type()` panics), never asks `IsZero` of an invalid field
   * value, and every package path it aliases has the `/` the alias needs.
   * Fields that are skipped are never looked into.
   */
  predicate Encodable(v: Value) {
    match v
    case NilPtr(_) => false
    case Ptr(_, e) => Encodable(e)
    case NilSlice(_, p) => AliasDefined(p)
    case Slice(_, p, es) => AliasDefined(p) && forall i :: 0 <= i < |es| ==> Encodable(es[i])
    case NilMap(_, p) => AliasDefined(p)
    case Map(_, p, ps) => AliasDefined(p) && forall i :: 0 <= i < |ps| ==> Encodable(ps[i].key) && Encodable(ps[i].val)
    case Struct(_, p, fs) => AliasDefined(p) && forall i :: 0 <= i < |fs| ==> FieldEncodable(fs[i])
    case _ => true
  }

  /** A field `dump` can look at: an exported one is never blank (Go never exports `_`) and holds a value. */
  predicate FieldEncodable(f: Field) {
    f.exported ==> f.name != "_" && f.value != Invalid && (IsZero(f.value) || Encodable(f.value))
  }

  /** The text `dump` appends for `v`. */
  function Enc(v: Value): string
    requires Encodable(v)
    decreases v, 0
  {
    match v
    case Invalid => ""
    case NilPtr(_) => ""
    case Ptr(t, e) =>
      if e.Struct? then AddressBytes + Enc(e)
      else AddressBytes + OpenSquareBracketBytes + CloseSquareBracketBytes + t + OpenBraceBytes + Enc(e) + CloseBraceBytes + ZeroIndexBytes
    case Str(s) => Quote(s)
    case Bool(b) => FormatBool(b)
    case Int(i) => FormatInt(i)
    case Uint(u) => FormatUint(u)
    case Float32(_, text) => text
    case Float64(_, text) => text
    case NilSlice(t, p) => Composite(TypeWithAlias(t, p), "")
    case Slice(t, p, es) => Composite(TypeWithAlias(t, p), EncElems(es))
    case NilMap(t, p) => Composite(TypeWithAlias(t, p), "")
    case Map(t, p, ps) => Composite(TypeWithAlias(t, p), EncPairs(ps))
    case Struct(t, p, fs) => Composite(TypeWithAlias(t, p), EncFields(fs))
    case Unhandled(_, _) => ""
  }

  /** A composite literal: the type, `{`, a newline, the entries, a newline, `}`. */
  function Composite(typeText: string, entries: string): string {
    typeText + OpenBraceBytes + NewLineBytes + entries + NewLineBytes + CloseBraceBytes
  }

  /** The entries of a slice literal, one `<elem>,\n` per element in index order. */
  function EncElems(es: seq<Value>): string
    requires forall i :: 0 <= i < |es| ==> Encodable(es[i])
    decreases es
  {
    if es == [] then "" else EncElems(es[..|es| - 1]) + EncElem(es[|es| - 1])
  }

  function EncElem(e: Value): string
    requires Encodable(e)
    decreases e, 1
  {
    Enc(e) + CommaBytes + NewLineBytes
  }

  /** The entries of a map literal, one `<key>:<value>,\n` per pair in the given order. */
  function EncPairs(ps: seq<Pair>): string
    requires forall i :: 0 <= i < |ps| ==> Encodable(ps[i].key) && Encodable(ps[i].val)
    decreases ps
  {
    if ps == [] then ""
    else EncPairs(ps[..|ps| - 1]) + EncPair(ps[|ps| - 1])
  }

  function EncPair(p: Pair): string
    requires Encodable(p.key) && Encodable(p.val)
    decreases p
  {
    Enc(p.key) + ColonBytes + Enc(p.val) + CommaBytes + NewLineBytes
  }

  /** The entries of a struct literal: one `<Name>:<value>,\n` per shown field. */
  function EncFields(fs: seq<Field>): string
    requires forall i :: 0 <= i < |fs| ==> FieldEncodable(fs[i])
    decreases fs
  {
    if fs == [] then "" else EncFields(fs[..|fs| - 1]) + EncField(fs[|fs| - 1])
  }

  function EncField(f: Field): string
    requires FieldEncodable(f)
    decreases f, 1
  {
    if Shown(f) then EncEntry(f) else ""
  }

  function EncEntry(f: Field): string
    requires Shown(f) && Encodable(f.value)
    decreases f, 0
  {
    f.name + ColonBytes + Enc(f.value) + CommaBytes + NewLineBytes
  }

  /** The `io.Writer` (a `bytes.Buffer`) that `dump` appends to. */
  class Buffer {
    var data: string

    constructor ()
      ensures data == ""
    {
      data := "";
    }

    method Write(s: string)
      modifies this
      ensures data == old(data) + s
    {
      data := data + s;
    }
  }

  /** `dump`: appends the literal for `v` to `w`, one write at a time. */
  method Dump(w: Buffer, v: Value)
    requires Encodable(v)
    modifies w
    ensures w.data == old(w.data) + Enc(v)
    decreases v, 1
  {
    match v {
      case Invalid =>
        return;
      case NilPtr(_) =>
        assert false;
      case Ptr(t, e) =>
        DumpPointer(w, t, e);
      case Str(s) =>
        w.Write(Quote(s));
      case Bool(b) =>
        w.Write(FormatBool(b));
      case Int(i) =>
        w.Write(FormatInt(i));
      case Uint(u) =>
        w.Write(FormatUint(u));
      case Float32(_, text) =>
        w.Write(text);
      case Float64(_, text) =>
        w.Write(text);
      case NilSlice(t, p) =>
        DumpEmpty(w, TypeWithAlias(t, p));
      case Slice(t, p, es) =>
        DumpSlice(w, TypeWithAlias(t, p), es);
      case NilMap(t, p) =>
        DumpEmpty(w, TypeWithAlias(t, p));
      case Map(t, p, ps) =>
        DumpMap(w, TypeWithAlias(t, p), ps);
      case Struct(t, p, fs) =>
        DumpStruct(w, TypeWithAlias(t, p), fs);
      case Unhandled(_, _) =>
    }
  }

  /**
   * The pointer case of `dump`: `&` and the struct literal for a pointer to
   * a struct; otherwise `&[]T{`, the element, `}[0]`, with `T` the element
   * type as it is printed.
   */
  method DumpPointer(w: Buffer, t: string, e: Value)
    requires Encodable(e)
    modifies w
    ensures w.data == old(w.data) + Enc(Ptr(t, e))
    decreases Ptr(t, e), 0
  {
    ghost var start := w.data;
    w.Write(AddressBytes);
    if e.Struct? {
      Dump(w, e);
      AppendAssoc(start, AddressBytes, Enc(e));
      return;
    }
    w.Write(OpenSquareBracketBytes);
    w.Write(CloseSquareBracketBytes);
    w.Write(t);
    w.Write(OpenBraceBytes);
    Dump(w, e);
    w.Write(CloseBraceBytes);
    w.Write(ZeroIndexBytes);
    PointerWritten(start, t, Enc(e));
  }

  /** The writes of the non-struct pointer case, one after the other, append the pointer literal. */
  lemma PointerWritten(s: string, t: string, elem: string)
    ensures s + AddressBytes + OpenSquareBracketBytes + CloseSquareBracketBytes + t + OpenBraceBytes + elem + CloseBraceBytes + ZeroIndexBytes
      == s + (AddressBytes + OpenSquareBracketBytes + CloseSquareBracketBytes + t + OpenBraceBytes + elem + CloseBraceBytes + ZeroIndexBytes)
  {
  }

  /** The writes of a composite literal, one after the other, append the literal. */
  lemma CompositeWritten(s: string, typeText: string, entries: string)
    ensures s + typeText + OpenBraceBytes + NewLineBytes + entries + NewLineBytes + CloseBraceBytes
      == s + Composite(typeText, entries)
  {
  }

  /** A nil slice or map: `dump` writes the aliased type and an empty body. */
  method DumpEmpty(w: Buffer, typeText: string)
    modifies w
    ensures w.data == old(w.data) + Composite(typeText, "")
  {
    ghost var start := w.data;
    w.Write(typeText);
    w.Write(OpenBraceBytes);
    w.Write(NewLineBytes);
    w.Write(NewLineBytes);
    w.Write(CloseBraceBytes);
    assert start + typeText + OpenBraceBytes + NewLineBytes + "" == start + typeText + OpenBraceBytes + NewLineBytes;
    CompositeWritten(start, typeText, "");
  }

  /** The slice case of `dump`: the aliased type, then every element followed by `,\n`. */
  method DumpSlice(w: Buffer, typeText: string, es: seq<Value>)
    requires forall i :: 0 <= i < |es| ==> Encodable(es[i])
    modifies w
    ensures w.data == old(w.data) + Composite(typeText, EncElems(es))
    decreases es, 0
  {
    ghost var start := w.data;
    w.Write(typeText);
    w.Write(OpenBraceBytes);
    w.Write(NewLineBytes);
    ghost var head := w.data;
    assert head == start + typeText + OpenBraceBytes + NewLineBytes;
    assert head + EncElems(es[..0]) == head;
    var numItems := |es|;
    for i := 0 to numItems
      invariant w.data == head + EncElems(es[..i])
    {
      DumpElem(w, es[i]);
      assert es[..i + 1][..i] == es[..i];
      assert EncElems(es[..i + 1]) == EncElems(es[..i]) + EncElem(es[i]);
      AppendAssoc(head, EncElems(es[..i]), EncElem(es[i]));
    }
    assert es[..numItems] == es;
    w.Write(NewLineBytes);
    w.Write(CloseBraceBytes);
    CompositeWritten(start, typeText, EncElems(es));
  }

  /** One iteration of the slice loop: `dump(v.Index(i))`, `,`, newline. */
  method DumpElem(w: Buffer, e: Value)
    requires Encodable(e)
    modifies w
    ensures w.data == old(w.data) + EncElem(e)
    decreases e, 2
  {
    ghost var start := w.data;
    Dump(w, e);
    w.Write(CommaBytes);
    w.Write(NewLineBytes);
    Append3(start, Enc(e), CommaBytes, NewLineBytes);
  }

  /** The map case of `dump`: the aliased type, then `key:value,\n` per pair. */
  method DumpMap(w: Buffer, typeText: string, ps: seq<Pair>)
    requires forall i :: 0 <= i < |ps| ==> Encodable(ps[i].key) && Encodable(ps[i].val)
    modifies w
    ensures w.data == old(w.data) + Composite(typeText, EncPairs(ps))
    decreases ps, 0
  {
    ghost var start := w.data;
    w.Write(typeText);
    w.Write(OpenBraceBytes);
    w.Write(NewLineBytes);
    ghost var head := w.data;
    assert head == start + typeText + OpenBraceBytes + NewLineBytes;
    assert head + EncPairs(ps[..0]) == head;
    for i := 0 to |ps|
      invariant w.data == head + EncPairs(ps[..i])
    {
      DumpPair(w, ps[i]);
      assert ps[..i + 1][..i] == ps[..i];
      assert EncPairs(ps[..i + 1]) == EncPairs(ps[..i]) + EncPair(ps[i]);
      AppendAssoc(head, EncPairs(ps[..i]), EncPair(ps[i]));
    }
    assert ps[..|ps|] == ps;
    w.Write(NewLineBytes);
    w.Write(CloseBraceBytes);
    CompositeWritten(start, typeText, EncPairs(ps));
  }

  /** One iteration of the map loop: `dump(key)`, `:`, `dump(MapIndex(key))`, `,`, newline. */
  method DumpPair(w: Buffer, pair: Pair)
    requires Encodable(pair.key) && Encodable(pair.val)
    modifies w
    ensures w.data == old(w.data) + EncPair(pair)
    decreases pair, 0
  {
    ghost var start := w.data;
    Dump(w, pair.key);
    w.Write(ColonBytes);
    Dump(w, pair.val);
    w.Write(CommaBytes);
    w.Write(NewLineBytes);
    Append5(start, Enc(pair.key), ColonBytes, Enc(pair.val), CommaBytes, NewLineBytes);
  }

  /** The struct case of `dump`: the aliased type, then `Name:value,\n` per exported, non-zero field. */
  method DumpStruct(w: Buffer, typeText: string, fs: seq<Field>)
    requires forall i :: 0 <= i < |fs| ==> FieldEncodable(fs[i])
    modifies w
    ensures w.data == old(w.data) + Composite(typeText, EncFields(fs))
    decreases fs, 0
  {
    ghost var start := w.data;
    w.Write(typeText);
    w.Write(OpenBraceBytes);
    w.Write(NewLineBytes);
    ghost var head := w.data;
    assert head == start + typeText + OpenBraceBytes + NewLineBytes;
    assert head + EncFields(fs[..0]) == head;
    var numFields := |fs|;
    for i := 0 to numFields
      invariant w.data == head + EncFields(fs[..i])
    {
      assert fs[..i + 1][..i] == fs[..i];
      assert EncFields(fs[..i + 1]) == EncFields(fs[..i]) + EncField(fs[i]);
      var f := fs[i];
      assert FieldEncodable(f);
      // Only exported, non-zero fields are written.
      if !f.exported {
        continue;
      }
      if IsZero(f.value) {
        continue;
      }
      DumpFieldEntry(w, f);
      AppendAssoc(head, EncFields(fs[..i]), EncEntry(f));
    }
    assert fs[..numFields] == fs;
    w.Write(NewLineBytes);
    w.Write(CloseBraceBytes);
    CompositeWritten(start, typeText, EncFields(fs));
  }

  /** The body of the struct loop for a field that is written: `Name`, `:`, `dump(field)`, `,`, newline. */
  method DumpFieldEntry(w: Buffer, f: Field)
    requires Shown(f) && Encodable(f.value)
    modifies w
    ensures w.data == old(w.data) + EncEntry(f)
    decreases f, 0
  {
    ghost var start := w.data;
    w.Write(f.name);
    w.Write(ColonBytes);
    Dump(w, f.value);
    w.Write(CommaBytes);
    w.Write(NewLineBytes);
    Append5(start, f.name, ColonBytes, Enc(f.value), CommaBytes, NewLineBytes);
  }

  /** What the decoder (`deserialize`) gives for a document: the object, or its error text. */
  datatype Decoded = Decoded(obj: Value) | DecodeError(decodeMessage: string)

  /** What the formatter (`format.Source`) gives for the generated text. */
  datatype Formatted = Formatted(text: string) | FormatError(formatMessage: string)

  /** What becomes of one non-empty document: the text printed for it, or the error that ends the run. */
  datatype Outcome = Printed(printed: string) | Failed(message: string)

  /**
   * The observable result of the document loop: what was printed to standard
   * output, the documents handed to the decoder (in order), and the error
   * `Generate` returns, if any.
   */
  datatype Run = Run(stdout: string, decoded: seq<string>, err: Option<string>)

  /** Whatever the decoder produces, `dump` can write it. */
  ghost predicate DecoderYieldsEncodable(decode: string -> Decoded) {
    forall d :: decode(d).Decoded? ==> Encodable(decode(d).obj)
  }

  /**
   * One document: decode it, write the decoded object as Go source, format
   * that source. Either error is wrapped with the message `Generate` returns.
   */
  function Process(document: string, decode: string -> Decoded, format: string -> Formatted): Outcome
    requires DecoderYieldsEncodable(decode)
  {
    match decode(document)
    case DecodeError(e) => Failed("failed to deserialize document: " + e)
    case Decoded(obj) =>
      match format(Enc(obj))
      case FormatError(e) => Failed("failed to format generated source code: " + e)
      case Formatted(text) => Printed(text)
  }

  /** Process with the decoder and the formatter fixed, as a function of the document alone. */
  function ProcessWith(decode: string -> Decoded, format: string -> Formatted): (process: string -> Outcome)
    requires DecoderYieldsEncodable(decode)
    ensures forall d :: process(d) == Process(d, decode, format)
  {
    d => Process(d, decode, format)
  }

  /**
   * The document loop of `Generate`, document by document: empty documents
   * are skipped, each other one is processed and its text printed on a line
   * of its own, and the first failure ends the run with its message.
   */
  function RunDocuments(docs: seq<string>, process: string -> Outcome): Run
    decreases |docs|
  {
    if docs == [] then Run("", [], None)
    else if docs[0] == "" then RunDocuments(docs[1..], process)
    else match process(docs[0])
      case Failed(e) => Run("", [docs[0]], Some(e))
      case Printed(text) =>
        var rest := RunDocuments(docs[1..], process);
        Run(text + NewLineBytes + rest.stdout, [docs[0]] + rest.decoded, rest.err)
  }

  /** The body of the loop for one non-empty document, with a fresh buffer for `dump`. */
  method GenerateDocument(document: string, decode: string -> Decoded, format: string -> Formatted)
    returns (outcome: Outcome)
    requires DecoderYieldsEncodable(decode)
    ensures outcome == Process(document, decode, format)
  {
    var result := decode(document);
    if result.DecodeError? {
      return Failed("failed to deserialize document: " + result.decodeMessage);
    }
    var buf := new Buffer();
    Dump(buf, result.obj);
    assert buf.data == Enc(result.obj);
    var formatted := format(buf.data);
    if formatted.FormatError? {
      return Failed("failed to format generated source code: " + formatted.formatMessage);
    }
    return Printed(formatted.text);
  }

  /**
   * `Generate` after the input has been read: split it into documents and
   * run the loop. The decoder and the formatter are parameters; the printed
   * text is returned as `stdout`, and `decoded` records the decoder's inputs.
   */
  method Generate(input: string, decode: string -> Decoded, format: string -> Formatted)
    returns (stdout: string, decoded: seq<string>, err: Option<string>)
    requires DecoderYieldsEncodable(decode)
    ensures Run(stdout, decoded, err) == RunDocuments(Split(input, YamlDocumentDelimiter), ProcessWith(decode, format))
  {
    var documents := Split(input, YamlDocumentDelimiter);
    ghost var process := ProcessWith(decode, format);
    ghost var whole := RunDocuments(documents, process);
    stdout, decoded, err := "", [], None;
    for i := 0 to |documents|
      invariant Continues(whole, stdout, decoded, RunDocuments(documents[i..], process))
    {
      var document := documents[i];
      // An empty document, from two delimiters in a row or one at either end, writes nothing.
      if document == "" {
        RunDocumentsSkip(documents, i, process);
        continue;
      }
      var outcome := GenerateDocument(document, decode, format);
      decoded := decoded + [document];
      if outcome.Failed? {
        err := Some(outcome.message);
        RunDocumentsStop(documents, i, process);
        ContinuesToStop(whole, stdout, decoded[..|decoded| - 1], document, outcome.message);
        return;
      }
      RunDocumentsPrint(documents, i, process);
      ContinuesAfterPrint(whole, stdout, decoded[..|decoded| - 1], document, outcome.printed,
        RunDocuments(documents[i + 1..], process));
      stdout := stdout + outcome.printed + NewLineBytes;
    }
    ContinuesToEnd(whole, stdout, decoded, RunDocuments(documents[|documents|..], process));
  }

  /** The whole run is what has been printed and decoded so far, followed by the rest of the run. */
  ghost predicate Continues(whole: Run, stdout: string, decoded: seq<string>, rest: Run) {
    whole == Run(stdout + rest.stdout, decoded + rest.decoded, rest.err)
  }

  /** After a document is printed, the run continues from what is printed now. */
  lemma ContinuesAfterPrint(whole: Run, stdout: string, decoded: seq<string>, document: string, text: string, rest: Run)
    requires Continues(whole, stdout, decoded, Run(text + NewLineBytes + rest.stdout, [document] + rest.decoded, rest.err))
    ensures Continues(whole, stdout + text + NewLineBytes, decoded + [document], rest)
  {
    assert stdout + (text + NewLineBytes + rest.stdout) == stdout + text + NewLineBytes + rest.stdout;
    assert decoded + ([document] + rest.decoded) == decoded + [document] + rest.decoded;
  }

  /** A failing document ends the whole run with its message. */
  lemma ContinuesToStop(whole: Run, stdout: string, decoded: seq<string>, document: string, message: string)
    requires Continues(whole, stdout, decoded, Run("", [document], Some(message)))
    ensures whole == Run(stdout, decoded + [document], Some(message))
  {
    assert stdout + "" == stdout;
  }

  /** With no documents left, the whole run is what has been done. */
  lemma ContinuesToEnd(whole: Run, stdout: string, decoded: seq<string>, rest: Run)
    requires Continues(whole, stdout, decoded, rest)
    requires rest == Run("", [], None)
    ensures whole == Run(stdout, decoded, None)
  {
    assert stdout + "" == stdout && decoded + [] == decoded;
  }

  /** An empty document is skipped. */
  lemma RunDocumentsSkip(docs: seq<string>, i: nat, process: string -> Outcome)
    requires i < |docs| && docs[i] == ""
    ensures RunDocuments(docs[i..], process) == RunDocuments(docs[i + 1..], process)
  {
    assert docs[i..][1..] == docs[i + 1..];
  }

  /** A document that fails ends the run with its message. */
  lemma RunDocumentsStop(docs: seq<string>, i: nat, process: string -> Outcome)
    requires i < |docs| && docs[i] != "" && process(docs[i]).Failed?
    ensures RunDocuments(docs[i..], process) == Run("", [docs[i]], Some(process(docs[i]).message))
  {
  }

  /** A document that succeeds is printed on a line of its own before the rest of the run. */
  lemma RunDocumentsPrint(docs: seq<string>, i: nat, process: string -> Outcome)
    requires i < |docs| && docs[i] != "" && process(docs[i]).Printed?
    ensures var rest := RunDocuments(docs[i + 1..], process);
      RunDocuments(docs[i..], process) ==
        Run(process(docs[i]).printed + NewLineBytes + rest.stdout, [docs[i]] + rest.decoded, rest.err)
  {
    assert docs[i..][1..] == docs[i + 1..];
  }
}
