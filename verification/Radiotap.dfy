/** What a radiotap header says: a chain of bitmap words, and for each bit that is set a field, in
    order, aligned relative to the start of the header.  Both iterators are proved against this. */
module Radiotap {
  import opened Arithmetic

  /** One byte. */
  type octet = x: nat | x < 0x100

  /** The fixed part of the header, up to the first bitmap word. */
  const HEADER_SIZE := 8
  const PRESENT := 4
  const WORD_SIZE := 4
  const WORD_BITS := 32

  const RADIOTAP_NAMESPACE := 29
  const VENDOR_NAMESPACE := 30
  const EXT := 31

  /** The number of fields that the extended iterator, and the plain iterator, know. */
  const RTAP_N_BITS := 23
  const RT_SIZES := 14

  datatype Option<T> = None | Some(value: T)

  // ----- bytes and bits

  function Le16(h: seq<octet>, at: nat): nat
    requires at + 2 <= |h|
  {
    h[at] as nat + 0x100 * (h[at + 1] as nat)
  }

  function Le32(h: seq<octet>, at: nat): nat
    requires at + 4 <= |h|
  {
    h[at] as nat + 0x100 * (h[at + 1] as nat) + 0x1_0000 * (h[at + 2] as nat) + 0x100_0000 * (h[at + 3] as nat)
  }

  /** `w` shifted right by `p` bits. */
  function Shifted(w: nat, p: nat): nat
    decreases p
  {
    if p == 0 then w else Shifted(w, p - 1) / 2
  }

  predicate Bit(w: nat, p: nat) { Shifted(w, p) % 2 == 1 }

  /** Bit 31, as the source tests it. */
  predicate Extends(w: nat) { w / 0x8000_0000 % 2 == 1 }

  lemma FiveOn(w: nat, p: nat)
    ensures Shifted(w, p + 5) == Shifted(w, p) / 0x20
  {
    assert Shifted(w, p + 2) == Shifted(w, p) / 4;
    assert Shifted(w, p + 4) == Shifted(w, p + 2) / 4;
  }

  lemma ExtendsIsBit(w: nat)
    ensures Extends(w) == Bit(w, EXT)
  {
    assert Shifted(w, 1) == w / 2;
    hide Shifted;
    FiveOn(w, 1);
    FiveOn(w, 6);
    FiveOn(w, 11);
    FiveOn(w, 16);
    FiveOn(w, 21);
    FiveOn(w, 26);
    assert Shifted(w, 31) == w / 0x8000_0000;
  }

  // ----- the bitmap words

  function Word(h: seq<octet>, k: nat): nat
    requires PRESENT + WORD_SIZE * (k + 1) <= |h|
  {
    Le32(h, PRESENT + WORD_SIZE * k)
  }

  function Power2(i: nat): nat { if i == 0 then 1 else 2 * Power2(i - 1) }

  /** Bit i of a byte is bit i of any number with that byte at the bottom. */
  lemma {:induction false} ShiftedByte(x: nat, m: nat, i: nat)
    requires i <= 8
    ensures Shifted(x + 0x100 * m, i) == Shifted(x, i) + m * Power2(8 - i)
    decreases i
  {
    assert Power2(8) == 2 * (2 * (2 * (2 * (2 * (2 * (2 * Power2(1)))))));
    if i > 0 {
      ShiftedByte(x, m, i - 1);
      DoubledFactor(m, Power2(8 - i));
    }
  }

  lemma {:induction false} ShiftedIsQuotient(w: nat, i: nat)
    ensures Power2(i) > 0 && Shifted(w, i) == w / Power2(i)
  {
    if i > 0 {
      ShiftedIsQuotient(w, i - 1);
      HalfOfQuotient(w, Power2(i - 1));
    }
  }

  lemma HalfOfQuotient(w: nat, n: nat)
    requires n > 0
    ensures w / n / 2 == w / (2 * n)
  {
    var q, r := w / n / 2, w / n % 2;
    assert w == (2 * q + r) * n + w % n;
    assert w == q * (2 * n) + (r * n + w % n);
    assert r * n + w % n < 2 * n;
    DivideMultiple(q, r * n + w % n, 2 * n);
  }

  /** The bit numbers of a bitmap word: the bits of its four bytes, the first byte first, and the least
      significant bit first. */
  lemma BitsOfWord(h: seq<octet>, k: nat, b: nat, i: nat)
    requires 4 + 4 * (k + 1) <= |h| && b < 4 && i < 8
    ensures Power2(i) > 0
    ensures Bit(Word(h, k), 8 * b + i) <==> h[4 + 4 * k + b] as nat / Power2(i) % 2 == 1
  {
    hide Shifted, Power2;
    var at := 4 + 4 * k;
    var x0, x1, x2, x3 := h[at] as nat, h[at + 1] as nat, h[at + 2] as nat, h[at + 3] as nat;
    assert Word(h, k) == x0 + 0x100 * (x1 + 0x100 * (x2 + 0x100 * (x3 + 0x100 * 0)));
    hide Word;
    if b > 0 {
      Peeled(x0, x1 + 0x100 * (x2 + 0x100 * (x3 + 0x100 * 0)), 8 * (b - 1) + i);
    }
    if b > 1 {
      Peeled(x1, x2 + 0x100 * (x3 + 0x100 * 0), 8 * (b - 2) + i);
    }
    if b > 2 {
      Peeled(x2, x3 + 0x100 * 0, i);
    }
    var x := h[4 + 4 * k + b] as nat;
    var m := if b == 0 then x1 + 0x100 * (x2 + 0x100 * (x3 + 0x100 * 0)) else
             if b == 1 then x2 + 0x100 * (x3 + 0x100 * 0) else if b == 2 then x3 + 0x100 * 0 else 0;
    assert Shifted(Word(h, k), 8 * b + i) == Shifted(x + 0x100 * m, i);
    ByteAtBottom(x, m, i);
    ShiftedIsQuotient(x, i);
  }

  /** Eight shifts take off a byte. */
  lemma Peeled(x: nat, m: nat, p: nat)
    requires x < 0x100
    ensures Shifted(x + 0x100 * m, 8 + p) == Shifted(m, p)
  {
    hide Shifted;
    EightOn(x + 0x100 * m);
    ShiftedTwice(x + 0x100 * m, 8, p);
  }

  lemma ByteAtBottom(x: nat, m: nat, i: nat)
    requires i < 8
    ensures Shifted(x + 0x100 * m, i) % 2 == Shifted(x, i) % 2
  {
    hide Shifted;
    ShiftedByte(x, m, i);
    DoubledFactor(m, Power2(7 - i));
  }

  lemma DoubledFactor(m: nat, p: nat)
    ensures m * (2 * p) == 2 * (m * p)
  {}

  lemma EightOn(w: nat)
    ensures Shifted(w, 8) == w / 0x100
  {
    FiveOn(w, 3);
    assert Shifted(w, 1) == w / 2;
    assert Shifted(w, 3) == Shifted(w, 1) / 4;
  }

  lemma {:induction false} ShiftedTwice(w: nat, m: nat, n: nat)
    ensures Shifted(w, m + n) == Shifted(Shifted(w, m), n)
    decreases n
  {
    if n > 0 {
      ShiftedTwice(w, m, n - 1);
    }
  }

  /** Behind `n` words. */
  function ChainEnd(n: nat): nat { PRESENT + WORD_SIZE * n }

  /** The header has exactly `n` bitmap words.  All but the first are within its length. */
  predicate IsChain(h: seq<octet>, n: nat, length: nat)
    requires HEADER_SIZE <= |h| && length <= |h|
  {
    && n > 0 && (n > 1 ==> ChainEnd(n) <= length)
    && (forall k :: 0 <= k < n - 1 ==> Extends(Word(h, k)))
    && !Extends(Word(h, n - 1))
  }

  // ----- the fields

  datatype Entry = Entry(align: nat, size: nat)

  /** The fields of the radiotap namespace; number 18 is not known. */
  function RtapSize(i: nat): Entry
    requires i < RTAP_N_BITS
  {
    if i == 0 then Entry(8, 8)
    else if i == 3 then Entry(2, 4)
    else if i == 4 || 7 <= i <= 9 || i == 14 || i == 15 then Entry(2, 2)
    else if i == 18 then Entry(0, 0)
    else if i == 19 then Entry(1, 3)
    else if i == 20 then Entry(4, 8)
    else if i == 21 then Entry(2, 12)
    else if i == 22 then Entry(8, 12)
    else Entry(1, 1)
  }

  /** The numbers of the source, field by field. */
  const ALIGNMENTS := [8, 1, 1, 2, 2, 1, 1, 2, 2, 2, 1, 1, 1, 1, 2, 2, 1, 1, 0, 1, 4, 2, 8]
  const SIZES := [8, 1, 1, 4, 2, 1, 1, 2, 2, 2, 1, 1, 1, 1, 2, 2, 1, 1, 0, 3, 8, 12, 12]

  lemma RtapSizes(i: nat)
    requires i < 23
    ensures RtapSize(i) == Entry(ALIGNMENTS[i], SIZES[i])
  {}

  function AlignUp(at: nat, align: nat): (a: nat)
    requires align > 0
    ensures at <= a < at + align && a % align == 0
  {
    var pad := at % align;
    var a := if pad != 0 then at + align - pad else at;
    AlignedUp(at, align);
    a
  }

  lemma AlignedUp(at: nat, align: nat)
    requires align > 0
    ensures (if at % align != 0 then at + align - at % align else at) % align == 0
  {
    var q := at / align;
    assert at == q * align + at % align;
    if at % align != 0 {
      assert at + align - at % align == (q + 1) * align;
      DivideMultiple(q + 1, 0, align);
    }
  }

  /** A namespace of a vendor, as the caller registers it. */
  datatype Vendor = Vendor(oui: nat, subns: nat, fields: seq<Entry>)

  datatype Namespace = RadiotapNs | VendorNs(which: nat) | UnknownNs

  datatype Header = Header(bytes: seq<octet>, length: nat, words: nat, vns: Option<seq<Vendor>>)

  /** The source aligns with a mask, so an alignment has to be a power of two; 0 stands for a field
      that is not known.  Alignments and sizes have four bits. */
  predicate IsVendor(v: Vendor) {
    forall e :: e in v.fields ==> e.align in {0, 1, 2, 4, 8} && e.size < 16
  }

  predicate IsHeader(h: Header) {
    && (h.vns.Some? ==> forall v :: v in h.vns.value ==> IsVendor(v))
    && HEADER_SIZE <= |h.bytes| && h.length <= |h.bytes| && IsChain(h.bytes, h.words, h.length)
  }

  predicate IsNamespace(vns: Option<seq<Vendor>>, ns: Namespace) {
    ns.VendorNs? ==> vns.Some? && ns.which < |vns.value|
  }

  /** The first registered namespace that matches. */
  function FindNs(vns: Option<seq<Vendor>>, oui: nat, subns: nat): (ns: Namespace)
    ensures IsNamespace(vns, ns)
  {
    if vns.None? then UnknownNs else FindFrom(vns.value, oui, subns, 0)
  }

  function FindFrom(ns: seq<Vendor>, oui: nat, subns: nat, i: nat): (r: Namespace)
    requires i <= |ns|
    ensures r == UnknownNs || (r.VendorNs? && r.which < |ns|)
    decreases |ns| - i
  {
    if i == |ns| then UnknownNs
    else if ns[i].oui == oui && ns[i].subns == subns then VendorNs(i)
    else FindFrom(ns, oui, subns, i + 1)
  }

  /** What is known about a field: nothing at all, so that parsing stops; nothing but where its
      namespace ends; or where it is to be found. */
  datatype Lookup = Stop | Skip | Known(entry: Entry)

  function LookUp(vns: Option<seq<Vendor>>, ns: Namespace, index: nat): (l: Lookup)
    requires IsNamespace(vns, ns)
    ensures l.Known? ==> l.entry.align > 0
  {
    match ns
    case RadiotapNs =>
      if index >= RTAP_N_BITS then Stop
      else if RtapSize(index).align == 0 then Skip
      else Known(RtapSize(index))
    case VendorNs(i) =>
      var fields := vns.value[i].fields;
      if index >= |fields| || fields[index].align == 0 then Skip else Known(fields[index])
    case UnknownNs => Skip
  }

  // ----- the whole header

  /** A field that the caller gets to see. */
  datatype Hit = Hit(index: nat, at: nat, size: nat, align: nat, radiotap: bool)

  /** Why there are no more fields.  `Unset`: the source would go on at a place that it never set. */
  datatype Ending = NoMore | Invalid | Unset

  datatype Fields = Fields(hits: seq<Hit>, ending: Ending)

  /** How far the parsing has come: to bit `bit` of word `word`, and to the byte `at`. */
  datatype Cursor = Cursor(word: nat, bit: nat, index: nat, at: nat, ns: Namespace, radiotap: bool,
                           nextNsData: Option<nat>, resetOnExt: bool)

  predicate IsCursor(h: Header, c: Cursor)
    requires IsHeader(h)
  {
    && c.word < h.words && c.bit < WORD_BITS && c.index % WORD_BITS == c.bit
    && IsNamespace(h.vns, c.ns) && (c.ns != RadiotapNs ==> c.nextNsData.Some?)
    && ChainEnd(h.words) <= c.at && (c.nextNsData.Some? ==> ChainEnd(h.words) <= c.nextNsData.value)
  }

  function Start(h: Header): Cursor {
    Cursor(0, 0, 0, ChainEnd(h.words), RadiotapNs, true, None, false)
  }

  function NextBit(c: Cursor): Cursor { c.(bit := c.bit + 1, index := c.index + 1) }

  function Before(hit: Hit, f: Fields): Fields { f.(hits := [hit] + f.hits) }

  /** The name of a vendor namespace: three bytes, the most significant first. */
  function Oui(h: seq<octet>, at: nat): nat
    requires at + 3 <= |h|
  {
    0x1_0000 * (h[at] as nat) + 0x100 * (h[at + 1] as nat) + h[at + 2] as nat
  }

  function NextWord(c: Cursor): Cursor {
    c.(word := c.word + 1, bit := 0, index := if c.resetOnExt then 0 else c.index + 1, resetOnExt := false)
  }

  function Present(h: Header, c: Cursor): bool
    requires IsHeader(h) && IsCursor(h, c)
  {
    Bit(Word(h.bytes, c.word), c.bit)
  }

  /** One bit: the parsing ends, or goes on silently, or with a field to show. */
  datatype Move = Stopped(ending: Ending) | Silent(next: Cursor) | Found(hit: Hit, next: Cursor)

  function Advance(h: Header, c: Cursor): (m: Move)
    requires IsHeader(h) && IsCursor(h, c)
  {
    if !Present(h, c) then
      if c.bit == EXT then Stopped(NoMore) else Silent(NextBit(c))
    else if c.bit == EXT then
      if c.at > h.length then Stopped(Invalid) else Silent(NextWord(c))
    else if c.bit == RADIOTAP_NAMESPACE then
      if c.at > h.length then Stopped(Invalid) else
      Silent(NextBit(c).(ns := RadiotapNs, radiotap := true, resetOnExt := true))
    else if c.bit == VENDOR_NAMESPACE then
      AdvanceVendor(h, c)
    else
      AdvanceField(h, c, LookUp(h.vns, c.ns, c.index))
  }

  function AdvanceField(h: Header, c: Cursor, l: Lookup): (m: Move)
    requires IsHeader(h) && IsCursor(h, c)
    requires l.Known? ==> l.entry.align > 0
  {
    match l
    case Stop => Stopped(NoMore)
    case Skip =>
      if c.nextNsData.None? then Stopped(Unset)
      else Silent(NextBit(c).(at := c.nextNsData.value, ns := UnknownNs))
    case Known(entry) =>
      var at := AlignUp(c.at, entry.align);
      if at + entry.size > h.length then Stopped(Invalid)
      else Found(Hit(c.index, at, entry.size, entry.align, c.radiotap), NextBit(c).(at := at + entry.size))
  }

  /** A vendor namespace begins with its name, and the length of its data.  If the caller has not
      registered it, name and data together make one field. */
  function AdvanceVendor(h: Header, c: Cursor): (m: Move)
    requires IsHeader(h) && IsCursor(h, c)
  {
    var at := AlignUp(c.at, 2);
    if at + 6 > h.length then Stopped(Invalid) else
    var ns := FindNs(h.vns, Oui(h.bytes, at), h.bytes[at + 3] as nat);
    var data := Le16(h.bytes, at + 4);
    var size := if ns == UnknownNs then 6 + data else 6;
    if at + size > h.length then Stopped(Invalid) else
    var d := NextBit(c).(at := at + size, ns := ns, radiotap := false, nextNsData := Some(at + 6 + data),
                         resetOnExt := true);
    if ns == UnknownNs then Found(Hit(VENDOR_NAMESPACE, at, size, 2, false), d) else Silent(d)
  }

  /** The bits that are left. */
  function BitsLeft(h: Header, c: Cursor): nat
    requires IsHeader(h) && IsCursor(h, c)
  {
    WORD_BITS * (h.words - c.word) - c.bit
  }

  lemma ExtendedWord(h: Header, c: Cursor)
    requires IsHeader(h) && IsCursor(h, c) && c.bit == EXT && Present(h, c)
    ensures c.word + 1 < h.words && Extends(Word(h.bytes, c.word))
  {
    hide Bit, Extends;
    ExtendsIsBit(Word(h.bytes, c.word));
  }

  /** `d` is a cursor, one bit on. */
  ghost predicate IsNextBit(h: Header, c: Cursor, d: Cursor)
    requires IsHeader(h)
  {
    IsCursor(h, d) && d.word == c.word && d.bit == c.bit + 1
  }

  lemma VendorAdvances(h: Header, c: Cursor)
    requires IsHeader(h) && IsCursor(h, c) && c.bit == VENDOR_NAMESPACE && !AdvanceVendor(h, c).Stopped?
    ensures IsNextBit(h, c, AdvanceVendor(h, c).next)
  {
    hide AlignUp, Le16, Oui, IsChain;
  }

  lemma FieldAdvances(h: Header, c: Cursor, l: Lookup)
    requires IsHeader(h) && IsCursor(h, c) && c.bit < EXT && (l.Known? ==> l.entry.align > 0)
    requires !AdvanceField(h, c, l).Stopped?
    ensures IsNextBit(h, c, AdvanceField(h, c, l).next)
  {
    hide AlignUp, IsChain, IsVendor, RtapSize;
  }

  lemma BitAdvances(h: Header, c: Cursor)
    requires IsHeader(h) && IsCursor(h, c) && c.bit < EXT
    ensures IsNextBit(h, c, NextBit(c))
    ensures IsNextBit(h, c, NextBit(c).(ns := RadiotapNs, radiotap := true, resetOnExt := true))
  {
    hide IsChain;
  }

  lemma WordAdvances(h: Header, c: Cursor)
    requires IsHeader(h) && IsCursor(h, c) && c.bit == EXT && Present(h, c)
    ensures IsCursor(h, NextWord(c))
  {
    ExtendedWord(h, c);
    hide IsChain, Present;
  }

  lemma AdvanceAdvances(h: Header, c: Cursor)
    requires IsHeader(h) && IsCursor(h, c) && !Advance(h, c).Stopped?
    ensures IsCursor(h, Advance(h, c).next) && BitsLeft(h, Advance(h, c).next) < BitsLeft(h, c)
  {
    assert c.bit <= EXT;
    hide IsHeader, IsCursor, Present, AdvanceField, AdvanceVendor, LookUp, NextBit;
    if c.bit == EXT {
      WordAdvances(h, c);
    } else {
      BitAdvances(h, c);
      if Present(h, c) && c.bit == VENDOR_NAMESPACE {
        VendorAdvances(h, c);
      } else if Present(h, c) && c.bit != RADIOTAP_NAMESPACE {
        FieldAdvances(h, c, LookUp(h.vns, c.ns, c.index));
      }
    }
  }

  /** All the fields from the cursor on. */
  function Parse(h: Header, c: Cursor): Fields
    requires IsHeader(h) && IsCursor(h, c)
    decreases BitsLeft(h, c)
  {
    match Advance(h, c)
    case Stopped(ending) => Fields([], ending)
    case Silent(next) =>
      AdvanceAdvances(h, c);
      Parse(h, next)
    case Found(hit, next) =>
      AdvanceAdvances(h, c);
      Before(hit, Parse(h, next))
  }

  // ----- properties of all headers

  /** A field lies behind the bitmaps and inside the stated length, and is aligned. */
  predicate IsInside(h: Header, hit: Hit) {
    && hit.align > 0 && hit.at % hit.align == 0
    && ChainEnd(h.words) <= hit.at && hit.at + hit.size <= h.length
  }

  lemma FoundInside(h: Header, c: Cursor)
    requires IsHeader(h) && IsCursor(h, c) && Advance(h, c).Found?
    ensures IsInside(h, Advance(h, c).hit)
  {
    hide AlignUp, Le16, Oui, RtapSize, Bit, IsChain;
  }

  lemma {:induction false} AllInside(h: Header, c: Cursor)
    requires IsHeader(h) && IsCursor(h, c)
    ensures forall hit :: hit in Parse(h, c).hits ==> IsInside(h, hit)
    decreases BitsLeft(h, c)
  {
    hide Advance, IsHeader, IsCursor, IsInside;
    if !Advance(h, c).Stopped? {
      AdvanceAdvances(h, c);
      AllInside(h, Advance(h, c).next);
      if Advance(h, c).Found? {
        FoundInside(h, c);
      }
    }
  }

  /** The fields that can still come: no bitmap word has more than 31. */
  function HitsLeft(h: Header, c: Cursor): nat
    requires IsHeader(h) && IsCursor(h, c)
  {
    EXT * (h.words - c.word) - c.bit
  }

  lemma HitsLeftDecreases(h: Header, c: Cursor)
    requires IsHeader(h) && IsCursor(h, c) && !Advance(h, c).Stopped?
    ensures IsCursor(h, Advance(h, c).next)
    ensures HitsLeft(h, Advance(h, c).next) <= HitsLeft(h, c)
    ensures Advance(h, c).Found? ==> HitsLeft(h, Advance(h, c).next) < HitsLeft(h, c)
  {
    AdvanceAdvances(h, c);
    hide AlignUp, Le16, Oui, RtapSize, Present, IsChain;
  }

  lemma {:induction false} HitsBounded(h: Header, c: Cursor)
    requires IsHeader(h) && IsCursor(h, c)
    ensures |Parse(h, c).hits| <= HitsLeft(h, c)
    decreases BitsLeft(h, c)
  {
    hide Advance, IsHeader, IsCursor, HitsLeft;
    if !Advance(h, c).Stopped? {
      AdvanceAdvances(h, c);
      HitsLeftDecreases(h, c);
      HitsBounded(h, Advance(h, c).next);
    }
  }

  /** The one move that uses the pointer that was never set. */
  lemma UnsetMove(h: Header, c: Cursor)
    requires IsHeader(h) && IsCursor(h, c)
    ensures Advance(h, c) == Stopped(Unset)
        <==> Present(h, c) && c.index == c.bit == 18 && c.ns == RadiotapNs && c.nextNsData.None?
  {
    hide AlignUp, Le16, Oui, Present, IsChain;
  }

  lemma {:induction false} SetWithoutBit18(h: Header, c: Cursor)
    requires IsHeader(h) && IsCursor(h, c)
    requires forall k :: c.word <= k < h.words ==> !Bit(Word(h.bytes, k), 18)
    ensures Parse(h, c).ending != Unset
    decreases BitsLeft(h, c)
  {
    UnsetMove(h, c);
    hide Advance, Bit;
    if !Advance(h, c).Stopped? {
      AdvanceAdvances(h, c);
      WordsInOrder(h, c);
      SetWithoutBit18(h, Advance(h, c).next);
    }
  }

  lemma WordsInOrder(h: Header, c: Cursor)
    requires IsHeader(h) && IsCursor(h, c) && !Advance(h, c).Stopped?
    ensures c.word <= Advance(h, c).next.word
  {
    hide AlignUp, Le16, Oui, Present, IsChain, RtapSize;
  }

  // ----- the pointer that is never set

  /** The place behind the set fields below `n` of a bitmap word, if the first one may begin at `at`. */
  function FieldsEnd(w: nat, n: nat, at: nat): (end: nat)
    requires n <= RTAP_N_BITS
    ensures end >= at
  {
    if n == 0 then at
    else
      var end := FieldsEnd(w, n - 1, at);
      if Bit(w, n - 1) && RtapSize(n - 1).align > 0 then
        AlignUp(end, RtapSize(n - 1).align) + RtapSize(n - 1).size
      else end
  }

  /** All of them lie within the length. */
  predicate FieldsFit(w: nat, n: nat, at: nat, length: nat)
    requires n <= RTAP_N_BITS
  {
    forall p :: 0 <= p < n && Bit(w, p) ==> FieldsEnd(w, p + 1, at) <= length
  }

  /** The numbers of the fields begin again at 0 with word `k`. */
  predicate IsFresh(h: Header, k: nat)
    requires IsHeader(h) && k < h.words
  {
    k == 0 || Bit(Word(h.bytes, k - 1), RADIOTAP_NAMESPACE)
  }

  /** No bit of word `k` stops the parse or begins a vendor namespace. */
  predicate IsPassed(h: Header, k: nat)
    requires IsHeader(h) && k < h.words
  {
    var w := Word(h.bytes, k);
    && !Bit(w, VENDOR_NAMESPACE)
    && (forall p :: (if IsFresh(h, k) then RTAP_N_BITS else 0) <= p < RADIOTAP_NAMESPACE ==> !Bit(w, p))
    && (IsFresh(h, k) ==> !Bit(w, 18))
  }

  /** What decides, from word `k` on, whether the parse comes to a set bit 18 of a fresh word: before
      that all words are passed, and all fields fit. */
  predicate ComesToBit18(h: Header, k: nat, at: nat)
    requires IsHeader(h) && k <= h.words
    decreases h.words - k
  {
    k < h.words &&
    var w, anew := Word(h.bytes, k), IsFresh(h, k);
    if anew && Bit(w, 18) then
      FieldsFit(w, 18, at, h.length)
    else
      && IsPassed(h, k)
      && (anew ==> FieldsFit(w, RTAP_N_BITS, at, h.length))
      && ComesToBit18(h, k + 1, if anew then FieldsEnd(w, RTAP_N_BITS, at) else at)
  }

  /** The part of a bitmap word below the cursor `c` has been passed since its first field at `at`. */
  predicate IsWithin(h: Header, c: Cursor, at: nat)
    requires IsHeader(h) && c.word < h.words
  {
    var w, n := Word(h.bytes, c.word), if c.bit < RTAP_N_BITS then c.bit else RTAP_N_BITS;
    && c.ns == RadiotapNs && c.nextNsData.None?
    && (if IsFresh(h, c.word) then c.index == c.bit else c.index >= WORD_BITS)
    && c.at == (if IsFresh(h, c.word) then FieldsEnd(w, n, at) else at)
    && (IsFresh(h, c.word) ==> FieldsFit(w, n, at, h.length))
    && (h.words > 1 ==> at <= h.length)
    && (forall p :: (if IsFresh(h, c.word) then RTAP_N_BITS else 0) <= p < c.bit && p != RADIOTAP_NAMESPACE
          ==> !Bit(w, p))
    && (IsFresh(h, c.word) && c.bit > 18 ==> !Bit(w, 18))
    && (c.resetOnExt <==> c.bit > RADIOTAP_NAMESPACE && Bit(w, RADIOTAP_NAMESPACE))
  }

  lemma AdvanceKeepsSet(h: Header, c: Cursor)
    requires IsHeader(h) && IsCursor(h, c) && c.nextNsData.Some?
    ensures Advance(h, c) != Stopped(Unset)
    ensures !Advance(h, c).Stopped? ==> Advance(h, c).next.nextNsData.Some?
  {
    hide AlignUp, Le16, Oui, Present, IsChain, RtapSize, LookUp, FindNs;
  }

  lemma {:induction false} SetStays(h: Header, c: Cursor)
    requires IsHeader(h) && IsCursor(h, c) && c.nextNsData.Some?
    ensures Parse(h, c).ending != Unset
    decreases BitsLeft(h, c)
  {
    hide IsHeader, IsCursor, Advance, BitsLeft;
    AdvanceKeepsSet(h, c);
    if !Advance(h, c).Stopped? {
      AdvanceAdvances(h, c);
      SetStays(h, Advance(h, c).next);
    }
  }

  /** A clear bit, and bit 29, lead on within the word. */
  lemma WithinNextBit(h: Header, c: Cursor, at: nat)
    requires IsHeader(h) && IsCursor(h, c) && IsWithin(h, c, at) && c.bit < EXT
    ensures !Present(h, c) ==> IsWithin(h, NextBit(c), at)
    ensures Present(h, c) && c.bit == RADIOTAP_NAMESPACE ==>
              IsWithin(h, NextBit(c).(ns := RadiotapNs, radiotap := true, resetOnExt := true), at)
  {
    hide AlignUp, RtapSize, Bit, Word, IsChain;
  }

  /** The last bit leads on to the next word, or to the end. */
  lemma WithinNextWord(h: Header, c: Cursor, at: nat)
    requires IsHeader(h) && IsCursor(h, c) && IsWithin(h, c, at) && c.bit == EXT
    ensures !Present(h, c) ==> !ComesToBit18(h, c.word, at)
    ensures Present(h, c) ==>
              && c.word + 1 < h.words && c.at <= h.length && IsWithin(h, NextWord(c), c.at)
              && (ComesToBit18(h, c.word, at) <==> ComesToBit18(h, c.word + 1, c.at))
  {
    hide AlignUp, RtapSize, Bit, Word, IsChain, FieldsEnd;
    LastWord(h, c);
    if h.words > 1 && IsFresh(h, c.word) {
      FitsUpToEnd(Word(h.bytes, c.word), RTAP_N_BITS, at, h.length);
    }
    if Present(h, c) {
      NoFieldsYet(Word(h.bytes, c.word + 1), c.at);
    }
  }

  lemma NoFieldsYet(w: nat, at: nat)
    ensures FieldsEnd(w, 0, at) == at
  {}

  lemma {:induction false} FitsUpToEnd(w: nat, n: nat, at: nat, length: nat)
    requires n <= RTAP_N_BITS && at <= length && FieldsFit(w, n, at, length)
    ensures FieldsEnd(w, n, at) <= length
  {
    hide AlignUp, RtapSize, Bit;
    if n > 0 {
      FitsUpToEnd(w, n - 1, at, length);
    }
  }

  lemma LastWord(h: Header, c: Cursor)
    requires IsHeader(h) && IsCursor(h, c) && c.bit == EXT
    ensures Present(h, c) <==> c.word + 1 < h.words
    ensures h.words > 1 ==> ChainEnd(h.words) <= h.length
  {
    hide Bit, Extends;
    ExtendsIsBit(Word(h.bytes, c.word));
  }

  /** A field, or the bit of one. */
  lemma WithinField(h: Header, c: Cursor, w: nat, at: nat)
    requires IsHeader(h) && IsCursor(h, c) && w == Word(h.bytes, c.word)
    requires IsWithin(h, c, at) && c.bit < RADIOTAP_NAMESPACE && Present(h, c)
    ensures var l := LookUp(h.vns, c.ns, c.index);
            && c.nextNsData.None?
            && (l.Stop? ==> !ComesToBit18(h, c.word, at))
            && (l.Skip? ==> ComesToBit18(h, c.word, at))
            && (l.Known? ==>
                  var end := AlignUp(c.at, l.entry.align) + l.entry.size;
                  if end > h.length then !ComesToBit18(h, c.word, at)
                  else IsWithin(h, NextBit(c).(at := end), at))
  {
    hide AlignUp, Bit, Word, IsChain;
    if IsFresh(h, c.word) && c.bit < RTAP_N_BITS {
      assert FieldsEnd(w, c.bit + 1, at) ==
             if RtapSize(c.bit).align > 0 then AlignUp(c.at, RtapSize(c.bit).align) + RtapSize(c.bit).size else c.at;
    }
  }

  /** `Advance`, bit by bit. */
  lemma AdvanceCases(h: Header, c: Cursor)
    requires IsHeader(h) && IsCursor(h, c)
    ensures !Present(h, c) ==> Advance(h, c) == if c.bit == EXT then Stopped(NoMore) else Silent(NextBit(c))
    ensures Present(h, c) && c.bit == EXT && c.at <= h.length ==> Advance(h, c) == Silent(NextWord(c))
    ensures Present(h, c) && c.bit == RADIOTAP_NAMESPACE ==>
              Advance(h, c) == if c.at > h.length then Stopped(Invalid)
                               else Silent(NextBit(c).(ns := RadiotapNs, radiotap := true, resetOnExt := true))
    ensures Present(h, c) && c.bit == VENDOR_NAMESPACE ==> Advance(h, c) == AdvanceVendor(h, c)
    ensures Present(h, c) && c.bit < RADIOTAP_NAMESPACE ==>
              Advance(h, c) == AdvanceField(h, c, LookUp(h.vns, c.ns, c.index))
  {
    hide AdvanceVendor, AdvanceField, LookUp, IsHeader, NextBit, NextWord, Present;
  }

  /** With a vendor namespace the pointer is set, or the parse fails. */
  lemma VendorSets(h: Header, c: Cursor)
    requires IsHeader(h) && IsCursor(h, c) && c.bit == VENDOR_NAMESPACE && Present(h, c)
    ensures Parse(h, c).ending != Unset
  {
    hide AlignUp, Le16, Oui, IsChain, Present, FindNs, IsCursor, Parse;
    AdvanceCases(h, c);
    ParseOne(h, c);
    if !Advance(h, c).Stopped? {
      SetStays(h, Advance(h, c).next);
    }
  }

  lemma VendorIsNotPassed(h: Header, c: Cursor, at: nat)
    requires IsHeader(h) && IsCursor(h, c) && IsWithin(h, c, at) && c.bit == VENDOR_NAMESPACE && Present(h, c)
    ensures !ComesToBit18(h, c.word, at)
  {
    hide IsChain, FieldsEnd, FieldsFit, Bit, Word;
  }

  lemma SwitchFails(h: Header, c: Cursor, w: nat, at: nat)
    requires IsHeader(h) && IsCursor(h, c) && w == Word(h.bytes, c.word)
    requires IsWithin(h, c, at) && c.bit == RADIOTAP_NAMESPACE && c.at > h.length
    ensures !ComesToBit18(h, c.word, at)
  {
    hide IsChain, Bit, FieldsEnd, Word;
    if h.words > 1 && IsFresh(h, c.word) {
      FitsUpToEnd(w, RTAP_N_BITS, at, h.length);
    }
  }

  /** Where the fields of the word after the move begin. */
  function NextAt(c: Cursor, at: nat): nat { if c.bit == EXT then c.at else at }

  /** A move decides, or leads to a cursor where what decides is the same. */
  predicate Decides(h: Header, c: Cursor, m: Move, at: nat)
    requires IsHeader(h) && c.word < h.words
  {
    if m.Stopped? then m.ending == Unset <==> ComesToBit18(h, c.word, at)
    else
      && m.next.word < h.words && IsWithin(h, m.next, NextAt(c, at))
      && (ComesToBit18(h, c.word, at) <==> ComesToBit18(h, m.next.word, NextAt(c, at)))
  }

  lemma FieldDecides(h: Header, c: Cursor, w: nat, at: nat)
    requires IsHeader(h) && IsCursor(h, c) && w == Word(h.bytes, c.word)
    requires IsWithin(h, c, at) && c.bit < RADIOTAP_NAMESPACE && Present(h, c) && c.word < h.words
    ensures Decides(h, c, Advance(h, c), at)
  {
    hide Advance, AlignUp, Present, LookUp, ComesToBit18, IsHeader, IsCursor, IsWithin, Word;
    AdvanceCases(h, c);
    WithinField(h, c, w, at);
  }

  lemma MoveDecides(h: Header, c: Cursor, at: nat)
    requires IsHeader(h) && IsCursor(h, c) && IsWithin(h, c, at)
    requires c.bit < WORD_BITS && c.word < h.words && !(c.bit == VENDOR_NAMESPACE && Present(h, c))
    ensures Decides(h, c, Advance(h, c), at)
  {
    hide Advance, Present, ComesToBit18, IsHeader, IsCursor, IsWithin;
    CursorBits(h, c);
    AdvanceCases(h, c);
    if c.bit == EXT {
      WithinNextWord(h, c, at);
    } else {
      WithinNextBit(h, c, at);
      if Present(h, c) && c.bit == RADIOTAP_NAMESPACE {
        if c.at > h.length {
          SwitchFails(h, c, CurrentWord(h, c), at);
        }
      } else if Present(h, c) {
        FieldDecides(h, c, CurrentWord(h, c), at);
      }
    }
  }

  lemma {:induction false} UnsetWithin(h: Header, c: Cursor, at: nat)
    requires IsHeader(h) && IsCursor(h, c) && IsWithin(h, c, at) && c.bit < WORD_BITS && c.word < h.words
    ensures Parse(h, c).ending == Unset <==> ComesToBit18(h, c.word, at)
    decreases BitsLeft(h, c)
  {
    hide Advance, Present, ComesToBit18, IsHeader, IsCursor, IsWithin, Parse, BitsLeft;
    if c.bit == VENDOR_NAMESPACE && Present(h, c) {
      VendorSets(h, c);
      VendorIsNotPassed(h, c, at);
    } else {
      MoveDecides(h, c, at);
      ParseOne(h, c);
      if !Advance(h, c).Stopped? {
        AdvanceAdvances(h, c);
        CursorBits(h, Advance(h, c).next);
        UnsetWithin(h, Advance(h, c).next, NextAt(c, at));
      }
    }
  }

  function CurrentWord(h: Header, c: Cursor): nat
    requires IsHeader(h) && IsCursor(h, c)
  {
    Word(h.bytes, c.word)
  }

  lemma CursorBits(h: Header, c: Cursor)
    requires IsHeader(h) && IsCursor(h, c)
    ensures c.bit < WORD_BITS && c.word < h.words
  {}

  /** For every header: the parse comes to the pointer that was never set exactly if, before any vendor
      namespace, it comes to a set bit 18 of a word in which the numbers begin again. */
  lemma UnsetExactly(h: Header)
    requires IsHeader(h)
    ensures IsCursor(h, Start(h))
    ensures Parse(h, Start(h)).ending == Unset <==> ComesToBit18(h, 0, ChainEnd(h.words))
  {
    hide Parse, ComesToBit18, Bit, Word;
    StartIsCursor(h);
    NoFieldsYet(Word(h.bytes, 0), ChainEnd(h.words));
    UnsetWithin(h, Start(h), ChainEnd(h.words));
  }

  /** With a single bitmap word. */
  lemma UnsetInOneWord(h: Header)
    requires IsHeader(h) && h.words == 1
    ensures IsCursor(h, Start(h))
    ensures var w := Word(h.bytes, 0);
            Parse(h, Start(h)).ending == Unset <==> Bit(w, 18) && FieldsFit(w, 18, ChainEnd(1), h.length)
  {
    hide Parse, Bit, FieldsFit, FieldsEnd;
    UnsetExactly(h);
  }

  /** A header of eight bytes that is accepted, and on which the iterator uses the pointer. */
  const UNSET_INPUT: seq<octet> := [0, 0, 8, 0, 0, 0, 4, 0]

  lemma UnsetInput()
    ensures var h := Header(UNSET_INPUT, 8, 1, None);
            IsHeader(h) && Le16(UNSET_INPUT, 2) == 8 && IsCursor(h, Start(h)) && Parse(h, Start(h)).ending == Unset
  {
    hide Parse;
    var h := Header(UNSET_INPUT, 8, 1, None);
    assert Word(UNSET_INPUT, 0) == 0x4_0000;
    BitsOfInput();
    UnsetInOneWord(h);
  }

  lemma BitsOfInput()
    ensures Bit(0x4_0000, 18) && forall p :: 0 <= p < 18 ==> !Bit(0x4_0000, p)
    ensures !Extends(0x4_0000)
  {
    var w := 0x4_0000;
    assert Shifted(w, 1) == 0x2_0000 && Shifted(w, 2) == 0x1_0000 && Shifted(w, 3) == 0x8000;
    assert Shifted(w, 4) == 0x4000 && Shifted(w, 5) == 0x2000 && Shifted(w, 6) == 0x1000;
    assert Shifted(w, 7) == 0x800 && Shifted(w, 8) == 0x400 && Shifted(w, 9) == 0x200;
    assert Shifted(w, 10) == 0x100 && Shifted(w, 11) == 0x80 && Shifted(w, 12) == 0x40;
    assert Shifted(w, 13) == 0x20 && Shifted(w, 14) == 0x10 && Shifted(w, 15) == 8;
    assert Shifted(w, 16) == 4 && Shifted(w, 17) == 2 && Shifted(w, 18) == 1;
  }

  /** A header of nine bytes with one field: number 2, the rate, which is the last byte. */
  const RATE_INPUT: seq<octet> := [0, 0, 9, 0, 4, 0, 0, 0, 0x16]

  lemma RateInput()
    ensures Le16(RATE_INPUT, 2) == 9
    ensures var h := Header(RATE_INPUT, 9, 1, None);
            && IsHeader(h) && IsCursor(h, Start(h))
            && Parse(h, Start(h)) == Fields([Hit(2, 8, 1, 1, true)], NoMore)
  {
    hide Parse;
    var h := Header(RATE_INPUT, 9, 1, None);
    assert Word(RATE_INPUT, 0) == 4;
    BitsOfFour(0);
    assert !Extends(4);
    var c := Start(h);
    ParseOne(h, c);
    var c1 := NextBit(c);
    assert Advance(h, c) == Silent(c1);
    ParseOne(h, c1);
    var c2 := NextBit(c1);
    assert Advance(h, c1) == Silent(c2);
    ParseOne(h, c2);
    var c3 := NextBit(c2).(at := 9);
    assert AlignUp(8, 1) == 8;
    assert Advance(h, c2) == Found(Hit(2, 8, 1, 1, true), c3);
    NothingLeft(h, c3);
  }

  lemma BitsOfFour(p: nat)
    ensures Bit(4, 2) && forall p: nat :: p < 32 && p != 2 ==> !Bit(4, p)
  {
    assert Shifted(4, 1) == 2 && Shifted(4, 2) == 1 && Shifted(4, 3) == 0;
    forall p: nat | p < 32 && p != 2 ensures !Bit(4, p) {
      if p > 2 {
        ShiftedTwice(4, 3, p - 3);
        ShiftedNothing(p - 3);
      }
    }
  }

  lemma {:induction false} ShiftedNothing(p: nat)
    ensures Shifted(0, p) == 0
  {
    if p > 0 {
      ShiftedNothing(p - 1);
    }
  }

  /** No further bit is set. */
  lemma {:induction false} NothingLeft(h: Header, c: Cursor)
    requires IsHeader(h) && IsCursor(h, c)
    requires forall p: nat :: c.bit <= p < WORD_BITS ==> !Bit(Word(h.bytes, c.word), p)
    ensures Parse(h, c) == Fields([], NoMore)
    decreases WORD_BITS - c.bit
  {
    hide Bit, Word, IsChain, Parse;
    ParseOne(h, c);
    if c.bit < EXT {
      NothingLeft(h, NextBit(c));
    }
  }

  // ----- the fields that both iterators know

  /** The table of the plain iterator: the alignment of a field in the upper half of a byte, and its size
      in the lower half. */
  const RT_SIZE_BYTES: seq<bv8> :=
    [0x88, 0x11, 0x11, 0x24, 0x22, 0x11, 0x11, 0x22, 0x22, 0x22, 0x11, 0x11, 0x11, 0x11]

  function RtSize(i: nat): Entry
    requires i < RT_SIZES
  {
    Entry((RT_SIZE_BYTES[i] >> 4) as nat, (RT_SIZE_BYTES[i] & 0x0f) as nat)
  }

  /** The two iterators have the same alignments and sizes, each in a table of its own. */
  lemma TablesAgree(i: nat)
    requires i < RT_SIZES
    ensures RtSize(i) == RtapSize(i) && RtSize(i).align > 0
  {
    NibblesOfTable();
  }

  lemma NibblesOfTable()
    ensures (0x88 as bv8 >> 4) as nat == 8 && (0x88 as bv8 & 0x0f) as nat == 8
    ensures (0x11 as bv8 >> 4) as nat == 1 && (0x11 as bv8 & 0x0f) as nat == 1
    ensures (0x24 as bv8 >> 4) as nat == 2 && (0x24 as bv8 & 0x0f) as nat == 4
    ensures (0x22 as bv8 >> 4) as nat == 2 && (0x22 as bv8 & 0x0f) as nat == 2
  {}

  /** The fields of one bitmap word that the plain iterator knows: align, then advance. */
  function Walk(w: nat, i: nat, at: nat, length: nat): Fields
    requires i <= RT_SIZES
    decreases RT_SIZES - i
  {
    if i == RT_SIZES then Fields([], NoMore)
    else if !Bit(w, i) then Walk(w, i + 1, at, length)
    else
      TablesAgree(i);
      var e := RtSize(i);
      var a := AlignUp(at, e.align);
      if a + e.size > length then Fields([], Invalid)
      else Before(Hit(i, a, e.size, e.align, true), Walk(w, i + 1, a + e.size, length))
  }

  /** In the first bitmap word, and before the first field that only the extended iterator knows. */
  predicate IsPlain(c: Cursor) {
    c.word == 0 && c.ns == RadiotapNs && c.radiotap && c.index == c.bit <= RT_SIZES
  }

  /** The next field of the extended iterator, if its bit is set. */
  function PlainHit(c: Cursor): (hit: Hit)
    requires c.bit < RT_SIZES
    ensures hit.index == c.bit
  {
    var e := RtapSize(c.bit);
    Hit(c.bit, AlignUp(c.at, e.align), e.size, e.align, true)
  }

  lemma WalkOne(w: nat, i: nat, at: nat, length: nat)
    requires i < RT_SIZES
    ensures RtSize(i).align > 0
    ensures var e := RtSize(i);
            var a := AlignUp(at, e.align);
            Walk(w, i, at, length) ==
            (if !Bit(w, i) then Walk(w, i + 1, at, length)
             else if a + e.size > length then Fields([], Invalid)
             else Before(Hit(i, a, e.size, e.align, true), Walk(w, i + 1, a + e.size, length)))
  {
    hide AlignUp, Bit, RtSize;
    TablesAgree(i);
  }

  lemma PlainAdvance(h: Header, c: Cursor)
    requires IsHeader(h) && IsCursor(h, c) && IsPlain(c) && c.bit < RT_SIZES
    ensures var hit, d := PlainHit(c), NextBit(c);
            && d.bit == c.bit + 1 <= RT_SIZES && d.at == c.at
            && IsPlain(d) && IsPlain(d.(at := hit.at + hit.size))
            && Advance(h, c) == (if !Bit(Word(h.bytes, 0), c.bit) then Silent(d)
                                 else if hit.at + hit.size > h.length then Stopped(Invalid)
                                 else Found(hit, d.(at := hit.at + hit.size)))
  {
    hide AlignUp, IsChain, Bit, Word;
  }

  lemma PlainWalk(w: nat, c: Cursor, length: nat)
    requires c.bit < RT_SIZES
    ensures var hit := PlainHit(c);
            Walk(w, c.bit, c.at, length) == (if !Bit(w, c.bit) then Walk(w, c.bit + 1, c.at, length)
                                             else if hit.at + hit.size > length then Fields([], Invalid)
                                             else Before(hit, Walk(w, c.bit + 1, hit.at + hit.size, length)))
  {
    hide AlignUp, Bit, RtSize, RtapSize;
    WalkOne(w, c.bit, c.at, length);
    TablesAgree(c.bit);
  }

  lemma ParseOne(h: Header, c: Cursor)
    requires IsHeader(h) && IsCursor(h, c)
    ensures Advance(h, c).Stopped? ==> Parse(h, c) == Fields([], Advance(h, c).ending)
    ensures !Advance(h, c).Stopped? ==> IsCursor(h, Advance(h, c).next)
    ensures Advance(h, c).Silent? ==> Parse(h, c) == Parse(h, Advance(h, c).next)
    ensures Advance(h, c).Found? ==> Parse(h, c) == Before(Advance(h, c).hit, Parse(h, Advance(h, c).next))
  {
    if !Advance(h, c).Stopped? {
      AdvanceAdvances(h, c);
    }
    hide Advance, IsCursor, IsHeader;
  }

  /** The fields `f` of the header and those of the walk, `g`: the walk has failed, and the iterator in
      the same place; or the walk has come to its end, where the iterator goes on from `rest`. */
  ghost predicate Agree(h: Header, f: Fields, g: Fields, rest: Cursor)
    requires IsHeader(h)
  {
    match g.ending
    case Invalid => f == g
    case NoMore =>
      && IsCursor(h, rest) && IsPlain(rest) && rest.bit == RT_SIZES
      && f.hits == g.hits + Parse(h, rest).hits && f.ending == Parse(h, rest).ending
    case Unset => false
  }

  lemma AgreeBefore(h: Header, f: Fields, g: Fields, rest: Cursor, hit: Hit)
    requires IsHeader(h) && Agree(h, f, g, rest)
    ensures Agree(h, Before(hit, f), Before(hit, g), rest)
  {
    hide IsHeader, IsCursor, Parse, IsPlain;
    if g.ending == NoMore {
      var r := Parse(h, rest).hits;
      assert [hit] + (g.hits + r) == [hit] + g.hits + r;
    }
  }

  lemma AgreeHere(h: Header, c: Cursor)
    requires IsHeader(h) && IsCursor(h, c) && IsPlain(c) && c.bit == RT_SIZES
    ensures Agree(h, Parse(h, c), Walk(Word(h.bytes, 0), c.bit, c.at, h.length), c)
  {
    hide IsHeader, IsCursor, Parse;
  }

  /** The fields below 14 of the first bitmap word, and a length error among them, are those of the
      simple walk. */
  lemma {:induction false} ParseWalks(h: Header, c: Cursor, w: nat) returns (rest: Cursor)
    requires IsHeader(h) && w == Word(h.bytes, 0)
    requires IsCursor(h, c) && IsPlain(c) && c.bit <= RT_SIZES
    ensures Agree(h, Parse(h, c), Walk(w, c.bit, c.at, h.length), rest)
    decreases RT_SIZES - c.bit
  {
    hide *;
    rest := c;
    if c.bit == RT_SIZES {
      AgreeHere(h, c);
    } else {
      PlainAdvance(h, c);
      PlainWalk(w, c, h.length);
      ParseOne(h, c);
      var d, hit := NextBit(c), PlainHit(c);
      var f, g := Parse(h, c), Walk(w, c.bit, c.at, h.length);
      if !Bit(w, c.bit) {
        rest := ParseWalks(h, d, w);
        assert f == Parse(h, d) && g == Walk(w, d.bit, d.at, h.length);
      } else if hit.at + hit.size > h.length {
        AgreeInvalid(h, rest);
        assert f == g == Fields([], Invalid);
      } else {
        var e := d.(at := hit.at + hit.size);
        var f1, g1 := Parse(h, e), Walk(w, e.bit, e.at, h.length);
        rest := ParseWalks(h, e, w);
        AgreeBefore(h, f1, g1, rest, hit);
        assert f == Before(hit, f1) && g == Before(hit, g1);
      }
    }
  }

  lemma AgreeInvalid(h: Header, rest: Cursor)
    requires IsHeader(h)
    ensures Agree(h, Fields([], Invalid), Fields([], Invalid), rest)
  {}

  lemma {:induction false} LaterFields(h: Header, c: Cursor)
    requires IsHeader(h) && IsCursor(h, c) && h.words == 1 && c.index == c.bit >= RT_SIZES
    ensures forall hit :: hit in Parse(h, c).hits ==> hit.index >= RT_SIZES
    decreases BitsLeft(h, c)
  {
    hide AlignUp, IsHeader, Bit, RtapSize, Le16, Oui;
    if !Advance(h, c).Stopped? {
      AdvanceAdvances(h, c);
      LaterFields(h, Advance(h, c).next);
    }
  }

  lemma WalkEnds(w: nat, at: nat, length: nat)
    ensures Walk(w, RT_SIZES, at, length) == Fields([], NoMore)
  {}

  lemma {:induction false} WalkFields(w: nat, i: nat, at: nat, length: nat)
    requires i <= RT_SIZES
    ensures forall hit :: hit in Walk(w, i, at, length).hits ==> hit.index < RT_SIZES
    decreases RT_SIZES - i
  {
    hide Walk, AlignUp, Bit, RtSize;
    if i == RT_SIZES {
      WalkEnds(w, at, length);
    } else {
      WalkOne(w, i, at, length);
      WalkFields(w, i + 1, at, length);
      WalkFields(w, i + 1, AlignUp(at, RtSize(i).align) + RtSize(i).size, length);
    }
  }

  /** Every header begins with the fields of the simple walk over its first bitmap word, up to a length
      error among them.  All other fields come later, and with a single bitmap word they are fields
      that the plain iterator does not know. */
  lemma FirstFields(h: Header) returns (later: seq<Hit>)
    requires IsHeader(h)
    ensures var c := Start(h);
            IsCursor(h, c) &&
            var f, g := Parse(h, c), Walk(Word(h.bytes, 0), 0, ChainEnd(h.words), h.length);
            && f.hits == g.hits + later
            && (forall hit :: hit in g.hits ==> hit.index < RT_SIZES)
            && (h.words == 1 ==> forall hit :: hit in later ==> hit.index >= RT_SIZES)
            && (g.ending == Invalid ==> later == [] && f.ending == Invalid)
            && g.ending != Unset
  {
    var c := Start(h);
    var w := Word(h.bytes, 0);
    hide Parse, Walk;
    StartIsCursor(h);
    WalkFields(w, 0, ChainEnd(h.words), h.length);
    var g := Walk(w, 0, ChainEnd(h.words), h.length);
    var rest := ParseWalks(h, c, w);
    later := [];
    if g.ending == NoMore {
      later := Parse(h, rest).hits;
      if h.words == 1 {
        LaterFields(h, rest);
      }
    }
  }

  lemma StartIsCursor(h: Header)
    requires IsHeader(h)
    ensures IsCursor(h, Start(h)) && Word(h.bytes, 0) == Shifted(Word(h.bytes, 0), 0)
  {
    hide IsVendor;
  }
}
