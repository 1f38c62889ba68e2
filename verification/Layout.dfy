/** Placing a compiled object into a binary: section layout, relocation and the jump to the
    new code, as in src/engine/engine.cpp. */
module Layout {
  import opened Bits
  import opened Wrappers

  datatype Result<T> = Ok(value: T) | Unsupported(kind: nat)

  /** `content` is what the file holds; a section without file contents (NOBITS) takes `size`
      zero bytes instead. */
  datatype Section = Section(index: nat, alignment: nat, loaded: bool, nobits: bool, size: nat, content: seq<nat>)

  function Zeros(n: nat): (z: seq<nat>)
    ensures |z| == n && forall i :: 0 <= i < n ==> z[i] == 0
  {
    seq<nat>(n, _ => 0)
  }

  function Body(s: Section): seq<nat> { if s.nobits then Zeros(s.size) else s.content }

  function Alignment(s: Section): (a: nat)
    ensures a >= 1
  {
    if s.alignment == 0 then 1 else s.alignment
  }

  function Padding(length: nat, alignment: nat): nat
    requires alignment >= 1
  {
    (alignment - length % alignment) % alignment
  }

  /** The padding is the least that reaches a multiple of the alignment. */
  lemma PaddingAligns(length: nat, a: nat)
    requires a >= 1
    ensures Padding(length, a) < a && (length + Padding(length, a)) % a == 0
  {
    var q, r := length / a, length % a;
    assert length == q * a + r;
    if r == 0 {
      QuotientUnique(a, a, 1, 0);
      QuotientUnique(length, a, q, 0);
    } else {
      QuotientUnique(a - r, a, 0, a - r);
      assert length + (a - r) == (q + 1) * a + 0;
      QuotientUnique(length + (a - r), a, q + 1, 0);
    }
  }

  /** A section lies intact and aligned at its recorded offset. */
  ghost predicate Placed(code: seq<nat>, offsets: map<nat, nat>, s: Section) {
    && s.index in offsets
    && offsets[s.index] % Alignment(s) == 0
    && offsets[s.index] + |Body(s)| <= |code|
    && code[offsets[s.index]..offsets[s.index] + |Body(s)|] == Body(s)
  }

  ghost predicate AllPlaced(code: seq<nat>, offsets: map<nat, nat>, placed: seq<Section>) {
    forall i :: 0 <= i < |placed| ==> Placed(code, offsets, placed[i])
  }

  ghost predicate SectionsApart(offsets: map<nat, nat>, placed: seq<Section>)
    requires forall i :: 0 <= i < |placed| ==> placed[i].index in offsets
  {
    forall i, j :: 0 <= i < j < |placed| ==> offsets[placed[i].index] + |Body(placed[i])| <= offsets[placed[j].index]
  }

  ghost predicate GapsZero(code: seq<nat>, offsets: map<nat, nat>, placed: seq<Section>) {
    forall k :: 0 <= k < |code| ==> code[k] == 0 || exists i :: 0 <= i < |placed| && Inside(offsets, placed[i], k)
  }

  ghost predicate OnlyPlaced(offsets: map<nat, nat>, placed: seq<Section>) {
    forall x :: x in offsets ==> exists i :: 0 <= i < |placed| && placed[i].index == x
  }

  /** The sections lie intact and aligned, in the order they were placed and without overlap;
      what lies between them is zero; and nothing else has an offset. */
  ghost predicate InOrder(code: seq<nat>, offsets: map<nat, nat>, placed: seq<Section>) {
    && AllPlaced(code, offsets, placed) && SectionsApart(offsets, placed)
    && GapsZero(code, offsets, placed) && OnlyPlaced(offsets, placed)
  }

  ghost predicate Inside(offsets: map<nat, nat>, s: Section, k: nat) {
    s.index in offsets && offsets[s.index] <= k < offsets[s.index] + |Body(s)|
  }

  class Image {
    var code: seq<nat>
    var offsets: map<nat, nat>

    constructor ()
      ensures code == [] && offsets == map[]
    {
      code, offsets := [], map[];
    }

    /** Pads to the section's alignment, records the offset, and appends the section. */
    method AppendSection(s: Section, ghost placed: seq<Section>)
      requires s.index !in offsets && InOrder(code, offsets, placed)
      modifies this
      ensures offsets == old(offsets)[s.index := |old(code)| + Padding(|old(code)|, Alignment(s))]
      ensures code == old(code) + Zeros(Padding(|old(code)|, Alignment(s))) + Body(s)
      ensures var o := offsets[s.index];
        && |old(code)| <= o && (s.alignment == 0 ==> o == |old(code)|)
        && (s.alignment > 0 ==> o % s.alignment == 0 && o < |old(code)| + s.alignment)
      ensures InOrder(code, offsets, placed + [s])
    {
      hide InOrder;
      var a := Alignment(s);
      code := code + Zeros(Padding(|code|, a));
      offsets := offsets[s.index := |code|];
      if s.nobits {
        code := code + Zeros(s.size);
      } else {
        code := code + s.content;
      }
      AppendKeepsOrder(old(code), old(offsets), placed, s);
      PaddingAligns(|old(code)|, a);
    }
  }

  lemma AppendKeepsOrder(code: seq<nat>, offsets: map<nat, nat>, placed: seq<Section>, s: Section)
    requires s.index !in offsets && InOrder(code, offsets, placed)
    ensures var pad := Padding(|code|, Alignment(s));
            InOrder(code + Zeros(pad) + Body(s), offsets[s.index := |code| + pad], placed + [s])
  {
    hide Padding, Body, Placed, Alignment;
    var pad := Padding(|code|, Alignment(s));
    var code', offsets', placed' := code + Zeros(pad) + Body(s), offsets[s.index := |code| + pad], placed + [s];
    AppendPlaces(code, offsets, placed, s);
    AppendFillsGaps(code, offsets, placed, s);
    forall i | 0 <= i < |placed|
      ensures placed[i].index in offsets && offsets[placed[i].index] + |Body(placed[i])| <= |code|
    {
      PlacedBound(code, offsets, placed[i]);
    }
    forall x | x in offsets' ensures exists i :: 0 <= i < |placed'| && placed'[i].index == x {
      if x == s.index { assert placed'[|placed|].index == x; } else {
        var i :| 0 <= i < |placed| && placed[i].index == x;
        assert placed'[i].index == x;
      }
    }
  }

  lemma PlacedBound(code: seq<nat>, offsets: map<nat, nat>, s: Section)
    requires Placed(code, offsets, s)
    ensures s.index in offsets && offsets[s.index] + |Body(s)| <= |code|
  {
  }

  lemma AppendPlaces(code: seq<nat>, offsets: map<nat, nat>, placed: seq<Section>, s: Section)
    requires s.index !in offsets && AllPlaced(code, offsets, placed)
    ensures var pad := Padding(|code|, Alignment(s));
            AllPlaced(code + Zeros(pad) + Body(s), offsets[s.index := |code| + pad], placed + [s])
  {
    hide Padding, Body, Alignment;
    var pad := Padding(|code|, Alignment(s));
    PaddingAligns(|code|, Alignment(s));
    var code', offsets' := code + Zeros(pad) + Body(s), offsets[s.index := |code| + pad];
    assert code'[|code| + pad..|code| + pad + |Body(s)|] == Body(s);
    forall i | 0 <= i < |placed| ensures Placed(code', offsets', placed[i]) {
      StillPlaced(code, offsets, placed[i], code', offsets');
    }
  }

  lemma AppendFillsGaps(code: seq<nat>, offsets: map<nat, nat>, placed: seq<Section>, s: Section)
    requires s.index !in offsets && GapsZero(code, offsets, placed)
    ensures var pad := Padding(|code|, Alignment(s));
            GapsZero(code + Zeros(pad) + Body(s), offsets[s.index := |code| + pad], placed + [s])
  {
    hide Padding, Body, Alignment;
    var pad := Padding(|code|, Alignment(s));
    var code', offsets', placed' := code + Zeros(pad) + Body(s), offsets[s.index := |code| + pad], placed + [s];
    forall k | 0 <= k < |code'|
      ensures code'[k] == 0 || exists i :: 0 <= i < |placed'| && Inside(offsets', placed'[i], k)
    {
      if k < |code| {
        assert code'[k] == code[k];
        if code[k] != 0 {
          var i :| 0 <= i < |placed| && Inside(offsets, placed[i], k);
          assert Inside(offsets', placed'[i], k);
        }
      } else if k >= |code| + pad {
        assert Inside(offsets', placed'[|placed|], k);
      }
    }
  }

  lemma StillPlaced(code: seq<nat>, offsets: map<nat, nat>, s: Section, code': seq<nat>, offsets': map<nat, nat>)
    requires Placed(code, offsets, s) && code <= code' && s.index in offsets' && offsets'[s.index] == offsets[s.index]
    ensures Placed(code', offsets', s)
  {
    hide Body;
    var o, n := offsets[s.index], |Body(s)|;
    assert code'[o..o + n] == code[o..o + n];
  }

  /** The sections to place: .text first, then every other allocated section in file order. */
  function Chosen(sections: seq<Section>, text: nat, n: nat): seq<Section>
    requires text < |sections| && n <= |sections|
  {
    if n == 0 then [sections[text]]
    else if n - 1 == text || !sections[n - 1].loaded then Chosen(sections, text, n - 1)
    else Chosen(sections, text, n - 1) + [sections[n - 1]]
  }

  ghost predicate DistinctIndices(sections: seq<Section>) {
    forall i, j :: 0 <= i < j < |sections| ==> sections[i].index != sections[j].index
  }

  lemma {:induction false} ChosenMembers(sections: seq<Section>, text: nat, n: nat, s: Section)
    requires text < |sections| && n <= |sections|
    ensures s in Chosen(sections, text, n) <==>
      s == sections[text] || exists i :: 0 <= i < n && i != text && sections[i].loaded && sections[i] == s
  {
    if n > 0 { ChosenMembers(sections, text, n - 1, s); }
  }

  /** What a section finds at its offset: its own bytes, or zeroes if it has none in the file,
      at a multiple of its alignment; an alignment of zero is no alignment. */
  lemma PlacedMeans(code: seq<nat>, offsets: map<nat, nat>, s: Section)
    requires Placed(code, offsets, s)
    ensures var o := offsets[s.index]; var n := if s.nobits then s.size else |s.content|;
      && (s.alignment > 0 ==> o % s.alignment == 0) && o + n <= |code|
      && forall j :: o <= j < o + n ==> code[j] == if s.nobits then 0 else s.content[j - o]
  {
    var o := offsets[s.index];
    forall j | o <= j < o + |Body(s)| ensures code[j] == Body(s)[j - o] {
      assert code[o..o + |Body(s)|][j - o] == code[j];
    }
  }

  /** .text comes first, at offset zero; the others follow in file order. */
  lemma {:induction false} ChosenOrder(sections: seq<Section>, text: nat, n: nat)
    requires text < |sections| && n <= |sections|
    ensures var c := Chosen(sections, text, n);
      && |c| > 0 && c[0] == sections[text]
      && forall i, j :: 0 < i < j < |c| ==>
           exists x, y :: 0 <= x < y < n && c[i] == sections[x] && c[j] == sections[y]
  {
    if n > 0 {
      ChosenOrder(sections, text, n - 1);
      var c, c' := Chosen(sections, text, n - 1), Chosen(sections, text, n);
      ChosenFrom(sections, text, n - 1);
      forall i, j | 0 < i < j < |c'|
        ensures exists x, y :: 0 <= x < y < n && c'[i] == sections[x] && c'[j] == sections[y]
      {
        if j < |c| {
          assert c'[i] == c[i] && c'[j] == c[j];
        } else {
          var x :| 0 <= x < n - 1 && c[i] == sections[x];
          assert c'[i] == sections[x] && c'[j] == sections[n - 1];
        }
      }
    }
  }

  lemma {:induction false} ChosenFrom(sections: seq<Section>, text: nat, n: nat)
    requires text < |sections| && n <= |sections|
    ensures var c := Chosen(sections, text, n);
      |c| > 0 && forall i :: 0 < i < |c| ==> exists x :: 0 <= x < n && c[i] == sections[x]
  {
    if n > 0 { ChosenFrom(sections, text, n - 1); }
  }

  /** Layout of a whole object: the chosen sections lie intact, aligned and apart, everything
      between them is zero, and exactly they have recorded offsets. */
  method LayOut(sections: seq<Section>, text: nat) returns (image: Image)
    requires text < |sections| && DistinctIndices(sections)
    ensures fresh(image) && InOrder(image.code, image.offsets, Chosen(sections, text, |sections|))
    ensures sections[text].index in image.offsets && image.offsets[sections[text].index] == 0
    ensures forall i :: 0 <= i < |sections| && (i == text || sections[i].loaded) ==> sections[i].index in image.offsets
    ensures forall x :: x in image.offsets ==>
      exists i :: 0 <= i < |sections| && (i == text || sections[i].loaded) && sections[i].index == x
  {
    hide InOrder;
    image := new Image();
    NothingPlaced();
    image.AppendSection(sections[text], []);
    assert [] + [sections[text]] == [sections[text]];
    assert Padding(0, Alignment(sections[text])) == 0 by { PaddingOfNothing(Alignment(sections[text])); }
    for n := 0 to |sections|
      invariant fresh(image) && InOrder(image.code, image.offsets, Chosen(sections, text, n))
      invariant sections[text].index in image.offsets && image.offsets[sections[text].index] == 0
      invariant forall i :: 0 <= i < n && (i == text || sections[i].loaded) ==> sections[i].index in image.offsets
      invariant forall x :: x in image.offsets ==>
        exists i :: 0 <= i < |sections| && (i == text || sections[i].loaded) && sections[i].index == x
    {
      if n != text && sections[n].loaded {
        NotYetPlaced(sections, text, n, image.code, image.offsets);
        image.AppendSection(sections[n], Chosen(sections, text, n));
      }
    }
  }

  lemma PaddingOfNothing(a: nat)
    requires a >= 1
    ensures Padding(0, a) == 0
  {
    QuotientUnique(0, a, 0, 0);
    QuotientUnique(a, a, 1, 0);
  }

  lemma NothingPlaced()
    ensures InOrder([], map[], [])
  {
  }

  lemma NotYetPlaced(sections: seq<Section>, text: nat, n: nat, code: seq<nat>, offsets: map<nat, nat>)
    requires text < |sections| && n < |sections| && n != text && DistinctIndices(sections)
    requires InOrder(code, offsets, Chosen(sections, text, n))
    ensures sections[n].index !in offsets
  {
    var placed := Chosen(sections, text, n);
    forall i | 0 <= i < |placed| ensures placed[i].index != sections[n].index {
      ChosenMembers(sections, text, n, placed[i]);
    }
  }

  // ------------------------------------------------------------- relocation

  datatype Kind = Pc32 | Plt32 | Abs64 | Abs32 | Abs32S | Other(number: nat)

  datatype Symbol = Symbol(isImageBase: bool, section: nat, value: nat)

  /** `section` is the section to patch, `address` the field's offset in it. */
  datatype Reloc = Reloc(kind: Kind, symbol: Option<Symbol>, section: Option<nat>, address: nat, addend: int)

  /** Where the code will be: its address, the image base, and how far the image was shifted. */
  datatype Site = Site(address: nat, imageBase: nat, shift: nat)

  const TWO32: nat := 0x1_0000_0000
  const TWO31: nat := 0x8000_0000

  /** Arithmetic on 64-bit words. */
  function Wrap(x: int): (w: nat)
    ensures w < TWO64
  {
    x % TWO64
  }

  /** Relocations without a symbol or section, or that concern sections left out, are skipped. */
  predicate Handled(r: Reloc, offsets: map<nat, nat>) {
    && r.symbol.Some? && r.section.Some? && r.section.value in offsets
    && (r.symbol.value.isImageBase || r.symbol.value.section in offsets)
  }

  /** S, the address of the symbol. */
  function SymbolAddress(r: Reloc, offsets: map<nat, nat>, site: Site): nat
    requires Handled(r, offsets)
  {
    var symbol := r.symbol.value;
    if symbol.isImageBase then Wrap(site.imageBase + site.shift)
    else Wrap(site.address + offsets[symbol.section] + symbol.value)
  }

  function FieldOffset(r: Reloc, offsets: map<nat, nat>): nat
    requires Handled(r, offsets)
  {
    offsets[r.section.value] + r.address
  }

  /** P, the address of the field. */
  function FieldAddress(r: Reloc, offsets: map<nat, nat>, site: Site): nat
    requires Handled(r, offsets)
  {
    Wrap(site.address + FieldOffset(r, offsets))
  }

  function FieldLength(kind: Kind): nat { if kind.Abs64? then 8 else 4 }

  /** The word written: S + A - P or S + A, cut to the field. */
  function FieldWord(r: Reloc, offsets: map<nat, nat>, site: Site): nat
    requires Handled(r, offsets)
  {
    if r.kind.Pc32? || r.kind.Plt32?
      then Wrap(SymbolAddress(r, offsets, site) + r.addend - FieldAddress(r, offsets, site))
    else Wrap(SymbolAddress(r, offsets, site) + r.addend)
  }

  function Patch(code: seq<nat>, offset: nat, bytes: seq<nat>): (p: seq<nat>)
    requires offset + |bytes| <= |code|
    ensures |p| == |code| && p[offset..offset + |bytes|] == bytes
    ensures forall k :: 0 <= k < |code| && !(offset <= k < offset + |bytes|) ==> p[k] == code[k]
  {
    code[..offset] + bytes + code[offset + |bytes|..]
  }

  predicate Patches(r: Reloc, offsets: map<nat, nat>) { Handled(r, offsets) && !r.kind.Other? }

  /** Every field to be patched lies within the code. */
  predicate InBounds(relocs: seq<Reloc>, offsets: map<nat, nat>, length: nat) {
    forall i :: 0 <= i < |relocs| && Patches(relocs[i], offsets) ==>
      FieldOffset(relocs[i], offsets) + FieldLength(relocs[i].kind) <= length
  }

  /** The code after the first `n` relocations. */
  ghost function Relocated(code: seq<nat>, offsets: map<nat, nat>, site: Site, relocs: seq<Reloc>,
                           n: nat): (c: seq<nat>)
    requires n <= |relocs| && InBounds(relocs, offsets, |code|)
    ensures |c| == |code|
  {
    if n == 0 then code
    else
      var before, r := Relocated(code, offsets, site, relocs, n - 1), relocs[n - 1];
      if Patches(r, offsets)
        then Patch(before, FieldOffset(r, offsets), Bytes(FieldWord(r, offsets, site), FieldLength(r.kind))) else before
  }

  method FixRelocations(start: seq<nat>, offsets: map<nat, nat>, site: Site, relocs: seq<Reloc>)
    returns (result: Result<seq<nat>>)
    requires forall i :: 0 <= i < |relocs| && Patches(relocs[i], offsets) ==>
      offsets[relocs[i].section.value] + relocs[i].address + (if relocs[i].kind.Abs64? then 8 else 4) <= |start|
    ensures result.Ok? <==> forall i :: 0 <= i < |relocs| && relocs[i].kind.Other? ==>
      relocs[i].symbol.None? || relocs[i].section.None? || relocs[i].section.value !in offsets
      || (!relocs[i].symbol.value.isImageBase && relocs[i].symbol.value.section !in offsets)
    ensures result.Ok? ==> result.value == Relocated(start, offsets, site, relocs, |relocs|)
  {
    var code := start;
    for n := 0 to |relocs|
      invariant code == Relocated(start, offsets, site, relocs, n)
      invariant forall i :: 0 <= i < n && Handled(relocs[i], offsets) ==> !relocs[i].kind.Other?
    {
      var r := relocs[n];
      if Handled(r, offsets) {
        if r.kind.Other? { return Unsupported(r.kind.number); }
        code := Patch(code, FieldOffset(r, offsets), Bytes(FieldWord(r, offsets, site), FieldLength(r.kind)));
      }
    }
    result := Ok(code);
  }

  /** Position `k` of the code belongs to the relocation's field. */
  predicate Covers(r: Reloc, offsets: map<nat, nat>, k: nat) {
    Patches(r, offsets) && FieldOffset(r, offsets) <= k < FieldOffset(r, offsets) + FieldLength(r.kind)
  }

  /** Bytes outside every field are untouched. */
  lemma {:induction false} Untouched(code: seq<nat>, offsets: map<nat, nat>, site: Site, relocs: seq<Reloc>, n: nat,
                                     k: nat)
    requires n <= |relocs| && InBounds(relocs, offsets, |code|) && k < |code|
    requires forall i :: 0 <= i < n && Patches(relocs[i], offsets) ==>
      var at := offsets[relocs[i].section.value] + relocs[i].address;
      k < at || k >= at + if relocs[i].kind.Abs64? then 8 else 4
    ensures Relocated(code, offsets, site, relocs, n)[k] == code[k]
  {
    if n > 0 { Untouched(code, offsets, site, relocs, n - 1, k); }
  }

  ghost predicate DisjointFields(relocs: seq<Reloc>, offsets: map<nat, nat>) {
    forall i, j, k :: 0 <= i < j < |relocs| && Covers(relocs[i], offsets, k) ==> !Covers(relocs[j], offsets, k)
  }

  /** With disjoint fields each field holds its own word at the end. */
  lemma {:induction false} FieldWritten(code: seq<nat>, offsets: map<nat, nat>, site: Site, relocs: seq<Reloc>, n: nat,
                                        i: nat)
    requires i < n <= |relocs| && InBounds(relocs, offsets, |code|) && DisjointFields(relocs, offsets)
      && Patches(relocs[i], offsets)
    ensures var o, l := FieldOffset(relocs[i], offsets), FieldLength(relocs[i].kind);
            Relocated(code, offsets, site, relocs, n)[o..o + l] == Bytes(FieldWord(relocs[i], offsets, site), l)
  {
    hide FieldWord, Bytes, Handled;
    if i < n - 1 {
      FieldWritten(code, offsets, site, relocs, n - 1, i);
      var o, l := FieldOffset(relocs[i], offsets), FieldLength(relocs[i].kind);
      var before, after := Relocated(code, offsets, site, relocs, n - 1), Relocated(code, offsets, site, relocs, n);
      forall k | o <= k < o + l ensures after[k] == before[k] {
        assert Covers(relocs[i], offsets, k);
        assert !Covers(relocs[n - 1], offsets, k);
      }
      assert after[o..o + l] == before[o..o + l];
    }
  }

  function SignExtend32(u: nat): int { if u < TWO31 then u else u - TWO32 }

  /** As a signed 64-bit number, `x` fits 32 bits. */
  predicate FitsSigned(x: int) { Wrap(x) < TWO31 || Wrap(x) >= TWO64 - TWO31 }

  /** A 32-bit field, sign-extended, stands for the number it was cut from exactly if that fits. */
  lemma SignedField(x: int, p: int)
    ensures Wrap(p + SignExtend32(Wrap(x) % TWO32)) == Wrap(p + x) <==> FitsSigned(x)
  {
    var w, u := Wrap(x), Wrap(x) % TWO32;
    SameWord(p, SignExtend32(u), x);
  }

  /** Adding the same number keeps words equal and words different. */
  lemma SameWord(p: int, a: int, b: int)
    ensures Wrap(p + a) == Wrap(p + b) <==> Wrap(a) == Wrap(b)
  {
  }

  lemma FourBytes(v: nat)
    ensures LittleEndian(Bytes(v, 4)) == v % TWO32
  {
    AssembleBytes(v, 4);
    assert Pow2(32) == TWO32 by {
      Pow2Add(16, 16);
      Pow2Add(8, 8);
      assert Pow2(8) == 256;
    }
  }

  lemma EightBytes(v: nat)
    requires v < TWO64
    ensures LittleEndian(Bytes(v, 8)) == v
  {
    AssembleBytes(v, 8);
    Pow2Of64();
  }

  /** What the processor or the program makes of a field at address `p`. */
  function Reading(kind: Kind, field: seq<nat>, p: nat): nat {
    match kind
    case Abs64 => LittleEndian(field)
    case Abs32 => LittleEndian(field)
    case Abs32S => Wrap(SignExtend32(LittleEndian(field)))
    case _ => Wrap(p + SignExtend32(LittleEndian(field)))
  }

  /** When the field is wide enough for the value: always, below 2^32, or within 32 signed bits. */
  predicate Representable(r: Reloc, offsets: map<nat, nat>, site: Site)
    requires Handled(r, offsets)
  {
    var target := SymbolAddress(r, offsets, site) + r.addend;
    match r.kind
    case Abs64 => true
    case Abs32 => Wrap(target) < TWO32
    case Abs32S => FitsSigned(target)
    case _ => FitsSigned(target - FieldAddress(r, offsets, site))
  }

  /** Each patched field resolves to S + A, as section 4.4.1 of the System V AMD64 psABI wants,
      exactly when the value fits the field. */
  lemma FieldResolves(code: seq<nat>, offsets: map<nat, nat>, site: Site, relocs: seq<Reloc>, i: nat)
    requires InBounds(relocs, offsets, |code|) && DisjointFields(relocs, offsets) && i < |relocs|
      && Patches(relocs[i], offsets)
    ensures var r := relocs[i];
            var o, l := FieldOffset(r, offsets), FieldLength(r.kind);
            var field := Relocated(code, offsets, site, relocs, |relocs|)[o..o + l];
            Reading(r.kind, field, FieldAddress(r, offsets, site)) == Wrap(SymbolAddress(r, offsets, site) + r.addend)
            <==> Representable(r, offsets, site)
  {
    FieldWritten(code, offsets, site, relocs, |relocs|, i);
    WordResolves(relocs[i], offsets, site);
  }

  /** S is where the symbol's byte is: its section's place in the image, and its value further on. */
  lemma SymbolMeans(r: Reloc, code: seq<nat>, offsets: map<nat, nat>, placed: seq<Section>, site: Site, k: nat)
    requires InOrder(code, offsets, placed) && k < |placed| && Handled(r, offsets) && !r.symbol.value.isImageBase
    requires placed[k].index == r.symbol.value.section && site.address + |code| <= TWO64
    requires r.symbol.value.value < if placed[k].nobits then placed[k].size else |placed[k].content|
    ensures var s, v := SymbolAddress(r, offsets, site), r.symbol.value.value;
      && s == site.address + offsets[placed[k].index] + v && s - site.address < |code|
      && code[s - site.address] == if placed[k].nobits then 0 else placed[k].content[v]
  {
    hide InOrder, Placed;
    PlacedAt(code, offsets, placed, k);
    PlacedMeans(code, offsets, placed[k]);
    assert offsets[placed[k].index] + r.symbol.value.value < |code|;
  }

  lemma PlacedAt(code: seq<nat>, offsets: map<nat, nat>, placed: seq<Section>, k: nat)
    requires InOrder(code, offsets, placed) && k < |placed|
    ensures Placed(code, offsets, placed[k])
  {
  }

  /** The image base is where the image was and how far it was shifted. */
  lemma ImageBaseMeans(r: Reloc, offsets: map<nat, nat>, site: Site)
    requires Handled(r, offsets) && r.symbol.value.isImageBase && site.imageBase + site.shift < TWO64
    ensures SymbolAddress(r, offsets, site) == site.imageBase + site.shift
  {
  }

  /** P is where the word was written: the patched section's place, and the field's further on. */
  lemma FieldMeans(code: seq<nat>, offsets: map<nat, nat>, site: Site, relocs: seq<Reloc>, i: nat)
    requires InBounds(relocs, offsets, |code|) && DisjointFields(relocs, offsets) && i < |relocs|
      && Patches(relocs[i], offsets)
    requires site.address + |code| <= TWO64
    ensures var r, p := relocs[i], FieldAddress(relocs[i], offsets, site);
      var at, n := p - site.address, if r.kind.Abs64? then 8 else 4;
      && at == offsets[r.section.value] + r.address && at + n <= |code|
      && Relocated(code, offsets, site, relocs, |relocs|)[at..at + n] == Bytes(FieldWord(r, offsets, site), n)
  {
    FieldWritten(code, offsets, site, relocs, |relocs|, i);
  }

  lemma WordResolves(r: Reloc, offsets: map<nat, nat>, site: Site)
    requires Patches(r, offsets)
    ensures var field := Bytes(FieldWord(r, offsets, site), FieldLength(r.kind));
            Reading(r.kind, field, FieldAddress(r, offsets, site)) == Wrap(SymbolAddress(r, offsets, site) + r.addend)
            <==> Representable(r, offsets, site)
  {
    hide Bytes, LittleEndian, SymbolAddress, FieldAddress;
    var target, p, v := SymbolAddress(r, offsets, site) + r.addend, FieldAddress(r, offsets, site),
      FieldWord(r, offsets, site);
    FourBytes(v);
    EightBytes(v);
    match r.kind
    case Abs64 =>
    case Abs32 => CutWord(v);
    case Abs32S => SignedField(target, 0);
    case _ => SignedField(target - p, p);
  }

  lemma CutWord(v: nat)
    ensures v % TWO32 == v <==> v < TWO32
  {
  }

  /** After layout and relocation a section still holds its own bytes outside the fields. */
  lemma SectionsIntact(code: seq<nat>, offsets: map<nat, nat>, placed: seq<Section>, site: Site, relocs: seq<Reloc>,
                       i: nat, k: nat)
    requires InOrder(code, offsets, placed) && InBounds(relocs, offsets, |code|) && i < |placed|
      && Inside(offsets, placed[i], k)
    requires forall j :: 0 <= j < |relocs| && Patches(relocs[j], offsets) ==>
      var at := offsets[relocs[j].section.value] + relocs[j].address;
      k < at || k >= at + if relocs[j].kind.Abs64? then 8 else 4
    ensures |Relocated(code, offsets, site, relocs, |relocs|)| == |code| && k < |code|
    ensures Relocated(code, offsets, site, relocs, |relocs|)[k] == Body(placed[i])[k - offsets[placed[i].index]]
    ensures forall j :: 0 <= j < |placed| && j != i ==> !Inside(offsets, placed[j], k)
  {
    hide Body, Relocated, InBounds, Covers, Alignment, GapsZero, OnlyPlaced;
    PlacedByte(code, offsets, placed[i], k);
    Untouched(code, offsets, site, relocs, |relocs|, k);
    forall j | 0 <= j < |placed| ensures placed[j].index in offsets {
      assert Placed(code, offsets, placed[j]);
    }
  }

  lemma PlacedByte(code: seq<nat>, offsets: map<nat, nat>, s: Section, k: nat)
    requires Placed(code, offsets, s) && Inside(offsets, s, k)
    ensures k < |code| && code[k] == Body(s)[k - offsets[s.index]]
  {
    hide Body;
    var o := offsets[s.index];
    assert code[o..o + |Body(s)|][k - o] == code[k];
  }

  // ------------------------------------------------------------- the jump to the new code

  /** The displacement, as the 32-bit signed number the code computes. */
  function Displacement(va: nat, target: nat): int { SignExtend32(Wrap(target - (va + 5)) % TWO32) }

  /** A near jump: opcode and the four bytes taken from the signed number by arithmetic shifts. */
  function JumpBytes(d: int): seq<nat> {
    [0xE9, d % 256, d / 0x100 % 256, d / 0x1_0000 % 256, d / 0x100_0000 % 256]
  }

  lemma ShiftedBytes(u: nat)
    requires u < TWO32
    ensures JumpBytes(SignExtend32(u))[1..] == Bytes(u, 4)
  {
    DigitsOfWord(u);
    hide Bytes;
    SignedDigit(u, 1, 0x100_0000);
    SignedDigit(u, 0x100, 0x1_0000);
    SignedDigit(u, 0x1_0000, 0x100);
    SignedDigit(u, 0x100_0000, 1);
  }

  /** A sign does not change the four low bytes. */
  lemma SignedDigit(u: nat, k: nat, m: nat)
    requires k > 0 && u < TWO32 && k * m * 256 == TWO32
    ensures SignExtend32(u) / k % 256 == u / k % 256
  {
    var q := u / k;
    assert u - TWO32 == (q - m * 256) * k + u % k by { assert (q - m * 256) * k == q * k - k * m * 256; }
    QuotientUnique(u - TWO32, k, q - m * 256, u % k);
    QuotientUnique(q - m * 256, 256, q / 256 - m, q % 256);
  }

  lemma DigitsOfWord(u: nat)
    ensures Bytes(u, 4) == [u % 256, u / 0x100 % 256, u / 0x1_0000 % 256, u / 0x100_0000 % 256]
  {
    assert u / 256 / 256 == u / 0x1_0000 && u / 0x1_0000 / 256 == u / 0x100_0000;
    assert Bytes(u / 0x100_0000, 1) == [u / 0x100_0000 % 256];
    assert Bytes(u / 0x1_0000, 2) == [u / 0x1_0000 % 256] + Bytes(u / 0x100_0000, 1);
    assert Bytes(u / 0x100, 3) == [u / 0x100 % 256] + Bytes(u / 0x1_0000, 2);
  }

  /** A number fits 32 signed bits exactly if it is, modulo 2^64, one between -2^31 and 2^31. */
  lemma FitsMeans(x: int)
    ensures FitsSigned(x) <==> exists d: int :: -0x8000_0000 <= d < 0x8000_0000 && Wrap(d) == Wrap(x)
  {
    if FitsSigned(x) {
      var d := if Wrap(x) < TWO31 then Wrap(x) else Wrap(x) - TWO64;
      assert Wrap(d) == Wrap(x);
    }
  }

  lemma SignExtendMeans(u: nat)
    requires u < 0x1_0000_0000
    ensures -0x8000_0000 <= SignExtend32(u) < 0x8000_0000 && (SignExtend32(u) - u) % 0x1_0000_0000 == 0
  {
  }

  /** The jump lands on the new code exactly when the distance fits 32 signed bits. */
  lemma JumpLands(va: nat, target: nat)
    ensures var jump := JumpBytes(Displacement(va, target));
      && jump[0] == 0xE9 && |jump| == 5 && (forall k :: 0 <= k < 5 ==> 0 <= jump[k] < 256)
      && (Wrap(va + 5 + SignExtend32(LittleEndian(jump[1..]))) == Wrap(target) <==> FitsSigned(target - (va + 5)))
  {
    hide Bytes, LittleEndian;
    var x := target - (va + 5);
    var u := Wrap(x) % TWO32;
    ShiftedBytes(u);
    FourBytes(u);
    SignedField(x, va + 5);
  }
}
