/**
 * What `dump` writes, stated against the reference encoding `Enc`: the shape
 * of pointer literals, scalars that read back as the values they came from,
 * slice and map entries in order, and struct fields that appear exactly when
 * they are exported and non-zero.
 */
module EncoderProps {
  import opened Options
  import opened SeqUtil
  import opened Strconv
  import opened Types
  import opened Generator

  predicate EndsWith(s: string, suffix: string) {
    |suffix| <= |s| && s[|s| - |suffix|..] == suffix
  }

  /** A composite literal closes with a brace, never with an index. */
  lemma CompositeEndsWithBrace(typeText: string, entries: string)
    ensures var r := Composite(typeText, entries); |r| >= 1 && r[|r| - 1] == '}'
  {
  }

  /** The parenthesisation of a composite literal around an entry in its body. */
  lemma CompositeAround(typeText: string, a: string, m: string, b: string)
    ensures Composite(typeText, a + m + b) == typeText + "{\n" + a + m + b + "\n}"
  {
  }

  /** A composite literal with no entries. */
  lemma CompositeEmpty(typeText: string)
    ensures Composite(typeText, "") == typeText + "{\n\n}"
  {
  }

  /**
   * A pointer to a struct is `&` and the struct literal, and so does not end
   * in `[0]`; a pointer to anything else is `&[]T{v}[0]` with the element
   * type written as it is printed, without an alias.
   */
  lemma PointerLiteral(t: string, e: Value)
    requires Encodable(e)
    ensures e.Struct? ==> Enc(Ptr(t, e)) == "&" + Enc(e)
    ensures !e.Struct? ==> Enc(Ptr(t, e)) == "&[]" + t + "{" + Enc(e) + "}[0]"
    ensures EndsWith(Enc(Ptr(t, e)), "[0]") <==> !e.Struct?
  {
    if e.Struct? {
      CompositeEndsWithBrace(TypeWithAlias(e.typeName, e.pkgPath), EncFields(e.fields));
      StructPointerShape(Enc(e));
    } else {
      PointerShape(t, Enc(e));
    }
  }

  lemma StructPointerShape(x: string)
    requires |x| >= 1 && x[|x| - 1] == '}'
    ensures AddressBytes + x == "&" + x
    ensures !EndsWith(AddressBytes + x, "[0]")
  {
    var r := AddressBytes + x;
    assert r[|r| - 1] == '}';
  }

  lemma PointerShape(t: string, x: string)
    ensures var r := AddressBytes + OpenSquareBracketBytes + CloseSquareBracketBytes + t + OpenBraceBytes + x + CloseBraceBytes + ZeroIndexBytes;
      r == "&[]" + t + "{" + x + "}[0]" && EndsWith(r, "[0]")
  {
    var r := AddressBytes + OpenSquareBracketBytes + CloseSquareBracketBytes + t + OpenBraceBytes + x + CloseBraceBytes + ZeroIndexBytes;
    assert r[|r| - 3..] == "[0]";
  }

  /**
   * Scalars are written as Go literals that read back as the same value:
   * a quoted string, `true`/`false`, and base-10 integers with a `-` only
   * for negative signed values.
   */
  lemma ScalarsReadBack(v: Value)
    ensures v.Str? ==> Unquote(Enc(v)) == Some(v.s)
    ensures v.Bool? ==> ParseBool(Enc(v)) == Some(v.b)
    ensures v.Int? ==> ParseInt(Enc(v)) == Some(v.i) && (Enc(v)[0] == '-' <==> v.i < 0)
    ensures v.Uint? ==> ParseInt(Enc(v)) == Some(v.u as int) && Enc(v)[0] != '-'
  {
    match v
    case Str(s) => UnquoteQuote(s);
    case Bool(b) => ParseFormatBool(b);
    case Int(i) => ParseFormatInt(i);
    case Uint(u) => ParseFormatUint(u);
    case _ =>
  }

  /** The entries of two slices one after the other are the entries of their concatenation. */
  lemma {:induction false} EncElemsAppend(a: seq<Value>, b: seq<Value>)
    requires forall i :: 0 <= i < |a| ==> Encodable(a[i])
    requires forall i :: 0 <= i < |b| ==> Encodable(b[i])
    ensures forall i :: 0 <= i < |a + b| ==> Encodable((a + b)[i])
    ensures EncElems(a + b) == EncElems(a) + EncElems(b)
    decreases |b|
  {
    if b == [] {
      AppendEmpty(a);
    } else {
      var b' := b[..|b| - 1];
      DropLastOfAppend(a, b);
      EncElemsAppend(a, b');
      AppendAssoc(EncElems(a), EncElems(b'), EncElem(b[|b| - 1]));
    }
  }

  /** Entries of `a`, then the entry of `e`, then entries of `b`. */
  lemma EncElemsAround(a: seq<Value>, e: Value, b: seq<Value>)
    requires forall i :: 0 <= i < |a| ==> Encodable(a[i])
    requires Encodable(e)
    requires forall i :: 0 <= i < |b| ==> Encodable(b[i])
    ensures forall i :: 0 <= i < |a + [e] + b| ==> Encodable((a + [e] + b)[i])
    ensures EncElems(a + [e] + b) == EncElems(a) + EncElem(e) + EncElems(b)
  {
    SingletonPrefix(e);
    EncElemsAppend(a, [e]);
    EncElemsAppend(a + [e], b);
  }

  /** Element `k`'s entry stands after the entries of the elements before it and before those after it. */
  lemma EncElemsAt(es: seq<Value>, k: nat)
    requires forall i :: 0 <= i < |es| ==> Encodable(es[i])
    requires k < |es|
    ensures EncElems(es) == EncElems(es[..k]) + EncElem(es[k]) + EncElems(es[k + 1..])
  {
    SplitAround(es, k);
    EncElemsAround(es[..k], es[k], es[k + 1..]);
  }

  /**
   * A slice literal is the aliased type, `{` and a newline, then element `k`
   * in place `k` (its entry is `value,\n`), then a newline and `}`.
   */
  lemma SliceElementAt(t: string, p: string, es: seq<Value>, k: nat)
    requires Encodable(Slice(t, p, es))
    requires k < |es|
    ensures Enc(Slice(t, p, es)) ==
      TypeWithAlias(t, p) + "{\n" + EncElems(es[..k]) + EncElem(es[k]) + EncElems(es[k + 1..]) + "\n}"
  {
    EncElemsAt(es, k);
    CompositeAround(TypeWithAlias(t, p), EncElems(es[..k]), EncElem(es[k]), EncElems(es[k + 1..]));
  }

  /**
   * An empty slice and a nil slice are both written `T{\n\n}`; they differ
   * only in zero-ness, so a struct field holding the empty one is written
   * and a field holding the nil one is skipped.
   */
  lemma EmptyAndNilSlice(t: string, p: string)
    requires AliasDefined(p)
    ensures Enc(Slice(t, p, [])) == Enc(NilSlice(t, p)) == TypeWithAlias(t, p) + "{\n\n}"
    ensures !IsZero(Slice(t, p, [])) && IsZero(NilSlice(t, p))
  {
    CompositeEmpty(TypeWithAlias(t, p));
  }

  /** The entries of two pair sequences one after the other are the entries of their concatenation. */
  lemma {:induction false} EncPairsAppend(a: seq<Pair>, b: seq<Pair>)
    requires forall i :: 0 <= i < |a| ==> Encodable(a[i].key) && Encodable(a[i].val)
    requires forall i :: 0 <= i < |b| ==> Encodable(b[i].key) && Encodable(b[i].val)
    ensures forall i :: 0 <= i < |a + b| ==> Encodable((a + b)[i].key) && Encodable((a + b)[i].val)
    ensures EncPairs(a + b) == EncPairs(a) + EncPairs(b)
    decreases |b|
  {
    if b == [] {
      AppendEmpty(a);
    } else {
      var b' := b[..|b| - 1];
      DropLastOfAppend(a, b);
      EncPairsAppend(a, b');
      AppendAssoc(EncPairs(a), EncPairs(b'), EncPair(b[|b| - 1]));
    }
  }

  /** Entries of `a`, then the entry of `q`, then entries of `b`. */
  lemma EncPairsAround(a: seq<Pair>, q: Pair, b: seq<Pair>)
    requires forall i :: 0 <= i < |a| ==> Encodable(a[i].key) && Encodable(a[i].val)
    requires Encodable(q.key) && Encodable(q.val)
    requires forall i :: 0 <= i < |b| ==> Encodable(b[i].key) && Encodable(b[i].val)
    ensures forall i :: 0 <= i < |a + [q] + b| ==> Encodable((a + [q] + b)[i].key) && Encodable((a + [q] + b)[i].val)
    ensures EncPairs(a + [q] + b) == EncPairs(a) + EncPair(q) + EncPairs(b)
  {
    SingletonPrefix(q);
    EncPairsAppend(a, [q]);
    EncPairsAppend(a + [q], b);
  }

  /** Pair `k`'s entry stands after the entries of the pairs before it and before those after it. */
  lemma EncPairsAt(ps: seq<Pair>, k: nat)
    requires forall i :: 0 <= i < |ps| ==> Encodable(ps[i].key) && Encodable(ps[i].val)
    requires k < |ps|
    ensures EncPairs(ps) == EncPairs(ps[..k]) + EncPair(ps[k]) + EncPairs(ps[k + 1..])
  {
    var a, q, b := ps[..k], ps[k], ps[k + 1..];
    assert forall i :: 0 <= i < |a| ==> a[i] == ps[i];
    assert forall i :: 0 <= i < |b| ==> b[i] == ps[k + 1 + i];
    SplitAround(ps, k);
    EncPairsAround(a, q, b);
  }

  /**
   * A map literal lists pair `k` in place `k` of the order the keys are
   * given in (its entry is `key:value,\n`).
   */
  lemma MapPairAt(t: string, p: string, ps: seq<Pair>, k: nat)
    requires Encodable(Map(t, p, ps))
    requires k < |ps|
    ensures Enc(Map(t, p, ps)) ==
      TypeWithAlias(t, p) + "{\n" + EncPairs(ps[..k]) + EncPair(ps[k]) + EncPairs(ps[k + 1..]) + "\n}"
  {
    EncPairsAt(ps, k);
    CompositeAround(TypeWithAlias(t, p), EncPairs(ps[..k]), EncPair(ps[k]), EncPairs(ps[k + 1..]));
  }

  /** A nil map and an empty map are both written `T{\n\n}`. */
  lemma EmptyAndNilMap(t: string, p: string)
    requires AliasDefined(p)
    ensures Enc(Map(t, p, [])) == Enc(NilMap(t, p)) == TypeWithAlias(t, p) + "{\n\n}"
    ensures !IsZero(Map(t, p, [])) && IsZero(NilMap(t, p))
  {
    CompositeEmpty(TypeWithAlias(t, p));
  }

  /** The entries of two field sequences one after the other are the entries of their concatenation. */
  lemma {:induction false} EncFieldsAppend(a: seq<Field>, b: seq<Field>)
    requires forall i :: 0 <= i < |a| ==> FieldEncodable(a[i])
    requires forall i :: 0 <= i < |b| ==> FieldEncodable(b[i])
    ensures forall i :: 0 <= i < |a + b| ==> FieldEncodable((a + b)[i])
    ensures EncFields(a + b) == EncFields(a) + EncFields(b)
    decreases |b|
  {
    if b == [] {
      AppendEmpty(a);
    } else {
      var b' := b[..|b| - 1];
      DropLastOfAppend(a, b);
      EncFieldsAppend(a, b');
      AppendAssoc(EncFields(a), EncFields(b'), EncField(b[|b| - 1]));
    }
  }

  /** Entries of `a`, then what field `f` contributes, then entries of `b`. */
  lemma EncFieldsAround(a: seq<Field>, f: Field, b: seq<Field>)
    requires forall i :: 0 <= i < |a| ==> FieldEncodable(a[i])
    requires FieldEncodable(f)
    requires forall i :: 0 <= i < |b| ==> FieldEncodable(b[i])
    ensures forall i :: 0 <= i < |a + [f] + b| ==> FieldEncodable((a + [f] + b)[i])
    ensures EncFields(a + [f] + b) == EncFields(a) + EncField(f) + EncFields(b)
  {
    SingletonPrefix(f);
    EncFieldsAppend(a, [f]);
    EncFieldsAppend(a + [f], b);
  }

  /**
   * The entries of a struct literal around field `k`: its `Name:value,\n`
   * entry if it is exported and non-zero, nothing otherwise.
   */
  lemma StructFieldAt(fs: seq<Field>, k: nat)
    requires forall i :: 0 <= i < |fs| ==> FieldEncodable(fs[i])
    requires k < |fs|
    ensures Shown(fs[k]) ==> EncFields(fs) == EncFields(fs[..k]) + EncEntry(fs[k]) + EncFields(fs[k + 1..])
    ensures !Shown(fs[k]) ==> EncFields(fs) == EncFields(fs[..k]) + EncFields(fs[k + 1..])
  {
    var a, f, b := fs[..k], fs[k], fs[k + 1..];
    EncFieldsAround(a, f, b);
    SplitAround(fs, k);
    assert EncFields(fs) == EncFields(a) + EncField(f) + EncFields(b);
    if !Shown(f) {
      assert EncFields(a) + EncField(f) == EncFields(a);
    }
  }

  /**
   * A field that is skipped can be replaced by any other skipped field
   * (another unexported one, or a zero one) without changing what is written.
   */
  lemma SkippedFieldIrrelevant(fs: seq<Field>, k: nat, g: Field)
    requires forall i :: 0 <= i < |fs| ==> FieldEncodable(fs[i])
    requires k < |fs| && FieldEncodable(g)
    requires !Shown(fs[k]) && !Shown(g)
    ensures var gs := fs[k := g]; forall i :: 0 <= i < |gs| ==> FieldEncodable(gs[i])
    ensures EncFields(fs[k := g]) == EncFields(fs)
  {
    var gs := fs[k := g];
    StructFieldAt(fs, k);
    StructFieldAt(gs, k);
    assert gs[..k] == fs[..k] && gs[k + 1..] == fs[k + 1..];
  }

  /** The fields `dump` writes, in declaration order. */
  function ShownFields(fs: seq<Field>): (shown: seq<Field>)
    ensures forall i :: 0 <= i < |shown| ==> Shown(shown[i])
    ensures forall i :: 0 <= i < |shown| ==> shown[i] in fs
    ensures forall i :: 0 <= i < |fs| && Shown(fs[i]) ==> fs[i] in shown
    ensures |shown| <= |fs| && SubsequenceOf(shown, fs)
  {
    if fs == [] then []
    else if Shown(fs[|fs| - 1]) then ShownFields(fs[..|fs| - 1]) + [fs[|fs| - 1]]
    else ShownFields(fs[..|fs| - 1])
  }

  /** Every shown field is kept as many times as it occurs, every other field not at all. */
  lemma {:induction false} ShownFieldsCount(fs: seq<Field>)
    ensures forall f :: multiset(ShownFields(fs))[f] == if Shown(f) then multiset(fs)[f] else 0
    decreases |fs|
  {
    if fs != [] {
      var init, last := fs[..|fs| - 1], fs[|fs| - 1];
      ShownFieldsCount(init);
      assert fs == init + [last];
      assert multiset(fs) == multiset(init) + multiset{last};
    }
  }

  /** One `Name:value,\n` entry per field, in order. */
  function Entries(fs: seq<Field>): string
    requires forall i :: 0 <= i < |fs| ==> Shown(fs[i]) && Encodable(fs[i].value)
  {
    if fs == [] then "" else Entries(fs[..|fs| - 1]) + EncEntry(fs[|fs| - 1])
  }

  /**
   * The body of a struct literal is the entries of the shown fields and of
   * nothing else: filtering out the unexported and the zero fields first
   * and then writing every field gives the same text.
   */
  lemma {:induction false} StructWritesShownFields(fs: seq<Field>)
    requires forall i :: 0 <= i < |fs| ==> FieldEncodable(fs[i])
    ensures forall i :: 0 <= i < |ShownFields(fs)| ==> Encodable(ShownFields(fs)[i].value)
    ensures EncFields(fs) == Entries(ShownFields(fs))
    decreases |fs|
  {
    if fs != [] {
      var init := fs[..|fs| - 1];
      StructWritesShownFields(init);
      var last := fs[|fs| - 1];
      var s := ShownFields(init);
      if Shown(last) {
        assert (s + [last])[..|s + [last]| - 1] == s;
      }
    }
  }

  /** A struct literal has an empty body exactly when every field is unexported or zero. */
  lemma StructBodyEmptyIff(fs: seq<Field>)
    requires forall i :: 0 <= i < |fs| ==> FieldEncodable(fs[i])
    ensures EncFields(fs) == "" <==> forall i :: 0 <= i < |fs| ==> !Shown(fs[i])
  {
    if k :| 0 <= k < |fs| && Shown(fs[k]) {
      StructFieldAt(fs, k);
    } else {
      HiddenFieldsWriteNothing(fs);
    }
  }

  lemma {:induction false} HiddenFieldsWriteNothing(fs: seq<Field>)
    requires forall i :: 0 <= i < |fs| ==> FieldEncodable(fs[i]) && !Shown(fs[i])
    ensures EncFields(fs) == ""
    decreases |fs|
  {
    if fs != [] {
      HiddenFieldsWriteNothing(fs[..|fs| - 1]);
    }
  }

  /** A zero struct, and one with no exported non-zero field, is written `T{\n\n}`. */
  lemma ZeroStructLiteral(t: string, p: string, fs: seq<Field>)
    requires Encodable(Struct(t, p, fs))
    requires IsZero(Struct(t, p, fs)) || forall i :: 0 <= i < |fs| ==> !fs[i].exported
    ensures Enc(Struct(t, p, fs)) == TypeWithAlias(t, p) + "{\n\n}"
  {
    StructBodyEmptyIff(fs);
    CompositeEmpty(TypeWithAlias(t, p));
  }

  /**
   * A float is zero exactly when it equals 0: every bit but the sign bit is
   * clear, so -0 is zero as well, and flipping the sign never changes it.
   */
  lemma Float32ZeroIgnoresSign(bits: bv32, text: string)
    ensures IsZero(Float32(bits, text)) <==> bits & 0x7fff_ffff == 0
    ensures IsZero(Float32(bits ^ SignBit32, text)) == IsZero(Float32(bits, text))
  {
  }

  lemma Float64ZeroIgnoresSign(bits: bv64, text: string)
    ensures IsZero(Float64(bits, text)) <==> bits & 0x7fff_ffff_ffff_ffff == 0
    ensures IsZero(Float64(bits ^ SignBit64, text)) == IsZero(Float64(bits, text))
  {
  }

  /** An exported field holding -0 is skipped like one holding +0. */
  lemma NegativeZeroFieldSkipped(t: string, p: string, name: string, text: string)
    requires AliasDefined(p) && name != "_"
    ensures Encodable(Struct(t, p, [Field(name, true, Float64(SignBit64, text))]))
    ensures Enc(Struct(t, p, [Field(name, true, Float64(SignBit64, text))])) == TypeWithAlias(t, p) + "{\n\n}"
  {
    var fs := [Field(name, true, Float64(SignBit64, text))];
    assert !Shown(fs[0]);
    HiddenFieldsWriteNothing(fs);
    CompositeEmpty(TypeWithAlias(t, p));
  }

  /** A blank `_` field never makes a struct non-zero, whatever it holds. */
  lemma {:induction false} BlankFieldIgnored(t: string, p: string, fs: seq<Field>, v: Value)
    ensures IsZero(Struct(t, p, fs + [Field("_", false, v)])) == IsZero(Struct(t, p, fs))
  {
    var gs := fs + [Field("_", false, v)];
    assert forall i :: 0 <= i < |fs| ==> gs[i] == fs[i];
  }
}
