/** Headers whose whole parse is known. */
module RadiotapExamples {
  import opened Radiotap

  /** The bits from `c.bit` to `p` - 1 are clear. */
  lemma {:induction false} SkipZeros(h: Header, c: Cursor, p: nat)
    requires IsHeader(h) && IsCursor(h, c) && c.bit <= p <= EXT
    requires forall q: nat :: c.bit <= q < p ==> !Bit(Word(h.bytes, c.word), q)
    ensures var d := c.(bit := p, index := c.index + (p - c.bit));
            IsCursor(h, d) && Parse(h, c) == Parse(h, d)
    decreases p - c.bit
  {
    hide Bit, Word, IsChain, Parse;
    if c.bit < p {
      ParseOne(h, c);
      SkipZeros(h, NextBit(c), p);
    }
  }

  lemma {:induction false} PowersOfTwo()
    ensures Power2(0) == 1 && Power2(1) == 2 && Power2(2) == 4 && Power2(3) == 8
    ensures Power2(4) == 16 && Power2(5) == 32 && Power2(6) == 64 && Power2(7) == 128
  {
    assert Power2(3) == 2 * (2 * (2 * Power2(0)));
    assert Power2(6) == 2 * (2 * (2 * Power2(3)));
  }

  /** Three bitmap words.  In the first, the flags, a vendor namespace, and another word; in the second,
      the first field of the vendor, the radiotap namespace again, and another word; in the third, the
      rate.  Behind them the flags, a byte to align, the name AA BB CC 07 of the vendor and the length 3
      of its data, and four bytes. */
  const VENDOR_INPUT: seq<octet> :=
    [0, 0, 28, 0, 0x02, 0, 0, 0xc0, 0x01, 0, 0, 0xa0, 0x04, 0, 0, 0,
     0x10, 0, 0xaa, 0xbb, 0xcc, 0x07, 0x03, 0, 0xd1, 0xd2, 0xd3, 0x16]

  predicate IsOne(k: nat, p: nat) {
    if k == 0 then p == 1 || p == 30 || p == 31
    else if k == 1 then p == 0 || p == 29 || p == 31
    else p == 2
  }

  lemma BitsOfVendorInput(k: nat, p: nat)
    requires k < 3 && p < 32
    ensures Bit(Word(VENDOR_INPUT, k), p) <==> IsOne(k, p)
  {
    hide Bit, Word, Power2;
    PowersOfTwo();
    BitsOfWord(VENDOR_INPUT, k, p / 8, p % 8);
  }

  lemma WordsOfVendorInput()
    ensures Extends(Word(VENDOR_INPUT, 0)) && Extends(Word(VENDOR_INPUT, 1)) && !Extends(Word(VENDOR_INPUT, 2))
    ensures forall k: nat, p: nat :: k < 3 && p < 32 ==> (Bit(Word(VENDOR_INPUT, k), p) <==> IsOne(k, p))
  {
    hide Bit, Word, Extends;
    forall k: nat, p: nat | k < 3 && p < 32 ensures Bit(Word(VENDOR_INPUT, k), p) <==> IsOne(k, p) {
      BitsOfVendorInput(k, p);
    }
    ExtendsIsBit(Word(VENDOR_INPUT, 0));
    ExtendsIsBit(Word(VENDOR_INPUT, 1));
    ExtendsIsBit(Word(VENDOR_INPUT, 2));
  }

  function VendorHeader(vns: Option<seq<Vendor>>): Header { Header(VENDOR_INPUT, 28, 3, vns) }

  lemma VendorHeaderIs(vns: Option<seq<Vendor>>)
    requires vns.Some? ==> forall v :: v in vns.value ==> IsVendor(v)
    ensures IsHeader(VendorHeader(vns)) && IsCursor(VendorHeader(vns), Start(VendorHeader(vns)))
    ensures Le16(VENDOR_INPUT, 2) == 28
  {
    WordsOfVendorInput();
    hide Extends, Word, Bit;
  }

  /** Up to the name of the vendor. */
  lemma FirstField(vns: Option<seq<Vendor>>)
    requires IsHeader(VendorHeader(vns)) && IsCursor(VendorHeader(vns), Start(VendorHeader(vns)))
    ensures var h := VendorHeader(vns);
            var c := Cursor(0, 30, 30, 17, RadiotapNs, true, None, false);
            IsCursor(h, c) && Parse(h, Start(h)) == Before(Hit(1, 16, 1, 1, true), Parse(h, c))
  {
    hide Bit, Word, Parse, IsHeader;
    var h := VendorHeader(vns);
    WordsOfVendorInput();
    SkipZeros(h, Start(h), 1);
    var c := Start(h).(bit := 1, index := 1);
    ParseOne(h, c);
    assert AlignUp(16, 1) == 16;
    var d := c.(bit := 2, index := 2, at := 17);
    assert Advance(h, c) == Found(Hit(1, 16, 1, 1, true), d);
    SkipZeros(h, d, 30);
  }

  /** What follows the radiotap namespace in the second word. */
  lemma LastField(vns: Option<seq<Vendor>>, c: Cursor)
    requires IsHeader(VendorHeader(vns)) && IsCursor(VendorHeader(vns), c)
    requires c.word == 1 && c.bit == c.index == 1 && 16 <= c.at <= 27
    ensures Parse(VendorHeader(vns), c) == Fields([Hit(2, c.at, 1, 1, true)], NoMore)
  {
    hide Bit, Word, Parse, IsHeader;
    var h := VendorHeader(vns);
    WordsOfVendorInput();
    SkipZeros(h, c, 29);
    var d := c.(bit := 29, index := 29);
    ParseOne(h, d);
    var e := d.(bit := 30, index := 30, ns := RadiotapNs, radiotap := true, resetOnExt := true);
    assert Advance(h, d) == Silent(e);
    SkipZeros(h, e, 31);
    var f := e.(bit := 31, index := 31);
    ParseOne(h, f);
    var g := f.(word := 2, bit := 0, index := 0, resetOnExt := false);
    assert Advance(h, f) == Silent(g);
    SkipZeros(h, g, 2);
    var r := g.(bit := 2, index := 2);
    ParseOne(h, r);
    assert AlignUp(c.at, 1) == c.at;
    var last := r.(bit := 3, index := 3, at := c.at + 1);
    assert Advance(h, r) == Found(Hit(2, c.at, 1, 1, true), last);
    NothingLeft(h, last);
  }

  /** Behind the name of the vendor: the next word begins. */
  lemma NextNamespace(vns: Option<seq<Vendor>>, ns: Namespace, at: nat)
    requires IsHeader(VendorHeader(vns)) && at <= 28
    ensures var h := VendorHeader(vns);
            var c := Cursor(0, 31, 31, at, ns, false, Some(27), true);
            IsCursor(h, c) ==>
              var d := Cursor(1, 0, 0, at, ns, false, Some(27), false);
              IsCursor(h, d) && Parse(h, c) == Parse(h, d)
  {
    hide Bit, Word, Parse, IsHeader;
    var h := VendorHeader(vns);
    WordsOfVendorInput();
    var c := Cursor(0, 31, 31, at, ns, false, Some(27), true);
    if IsCursor(h, c) {
      ParseOne(h, c);
      assert Advance(h, c) == Silent(Cursor(1, 0, 0, at, ns, false, Some(27), false));
    }
  }

  lemma NameOfVendor()
    ensures Oui(VENDOR_INPUT, 18) == 0xaabbcc && Le16(VENDOR_INPUT, 22) == 3 && AlignUp(17, 2) == 18
  {}

  /** If the vendor is not registered, its name and its data are one field. */
  lemma UnknownVendor()
    ensures var h := VendorHeader(None);
            && IsHeader(h) && IsCursor(h, Start(h))
            && Parse(h, Start(h)) == Fields([Hit(1, 16, 1, 1, true), Hit(30, 18, 9, 2, false),
                                             Hit(2, 27, 1, 1, true)], NoMore)
  {
    hide Bit, Word, Parse, IsHeader, AlignUp, Oui, Le16;
    var h := VendorHeader(None);
    VendorHeaderIs(None);
    FirstField(None);
    NameOfVendor();
    WordsOfVendorInput();
    var c := Cursor(0, 30, 30, 17, RadiotapNs, true, None, false);
    ParseOne(h, c);
    var d := Cursor(0, 31, 31, 27, UnknownNs, false, Some(27), true);
    assert Advance(h, c) == Found(Hit(30, 18, 9, 2, false), d);
    NextNamespace(None, UnknownNs, 27);
    var e := Cursor(1, 0, 0, 27, UnknownNs, false, Some(27), false);
    ParseOne(h, e);
    var f := e.(bit := 1, index := 1);
    assert Advance(h, e) == Silent(f);
    LastField(None, f);
  }

  /** If it is, its fields are shown. */
  const REGISTERED: seq<Vendor> := [Vendor(0xaabbcc, 8, []), Vendor(0xaabbcc, 7, [Entry(2, 2)])]

  lemma KnownVendor()
    ensures var h := VendorHeader(Some(REGISTERED));
            && IsHeader(h) && IsCursor(h, Start(h))
            && Parse(h, Start(h)) == Fields([Hit(1, 16, 1, 1, true), Hit(0, 24, 2, 2, false),
                                             Hit(2, 26, 1, 1, true)], NoMore)
  {
    hide Bit, Word, Parse, IsHeader, AlignUp, Oui, Le16;
    var vns := Some(REGISTERED);
    var h := VendorHeader(vns);
    VendorHeaderIs(vns);
    FirstField(vns);
    NameOfVendor();
    WordsOfVendorInput();
    var c := Cursor(0, 30, 30, 17, RadiotapNs, true, None, false);
    ParseOne(h, c);
    assert FindNs(vns, 0xaabbcc, 7) == VendorNs(1);
    var d := Cursor(0, 31, 31, 24, VendorNs(1), false, Some(27), true);
    assert Advance(h, c) == Silent(d);
    NextNamespace(vns, VendorNs(1), 24);
    var e := Cursor(1, 0, 0, 24, VendorNs(1), false, Some(27), false);
    ParseOne(h, e);
    AlignedAlready();
    var f := e.(bit := 1, index := 1, at := 26);
    assert Advance(h, e) == Found(Hit(0, 24, 2, 2, false), f);
    LastField(vns, f);
  }

  lemma AlignedAlready()
    ensures AlignUp(24, 2) == 24
  {}

  /** If it is registered without fields, its data is skipped. */
  lemma VendorWithoutFields()
    ensures var h := VendorHeader(Some([Vendor(0xaabbcc, 7, [])]));
            && IsHeader(h) && IsCursor(h, Start(h))
            && Parse(h, Start(h)) == Fields([Hit(1, 16, 1, 1, true), Hit(2, 27, 1, 1, true)], NoMore)
  {
    hide Bit, Word, Parse, IsHeader, AlignUp, Oui, Le16;
    var vns := Some([Vendor(0xaabbcc, 7, [])]);
    var h := VendorHeader(vns);
    VendorHeaderIs(vns);
    FirstField(vns);
    NameOfVendor();
    WordsOfVendorInput();
    var c := Cursor(0, 30, 30, 17, RadiotapNs, true, None, false);
    ParseOne(h, c);
    assert FindNs(vns, 0xaabbcc, 7) == VendorNs(0);
    var d := Cursor(0, 31, 31, 24, VendorNs(0), false, Some(27), true);
    assert Advance(h, c) == Silent(d);
    NextNamespace(vns, VendorNs(0), 24);
    var e := Cursor(1, 0, 0, 24, VendorNs(0), false, Some(27), false);
    ParseOne(h, e);
    var f := Cursor(1, 1, 1, 27, UnknownNs, false, Some(27), false);
    assert Advance(h, e) == Silent(f);
    LastField(vns, f);
  }

  // ----- how a parse ends

  /** A field beyond the stated length. */
  const SHORT_INPUT: seq<octet> := [0, 0, 8, 0, 0x02, 0, 0, 0]

  lemma TooShort()
    ensures var h := Header(SHORT_INPUT, 8, 1, None);
            && IsHeader(h) && IsCursor(h, Start(h)) && Parse(h, Start(h)) == Fields([], Invalid)
  {
    hide Bit, Word, Parse, Power2;
    PowersOfTwo();
    BitsOfWord(SHORT_INPUT, 0, 0, 0);
    BitsOfWord(SHORT_INPUT, 0, 0, 1);
    BitsOfWord(SHORT_INPUT, 0, 3, 7);
    ExtendsIsBit(Word(SHORT_INPUT, 0));
    var h := Header(SHORT_INPUT, 8, 1, None);
    SkipZeros(h, Start(h), 1);
    ParseOne(h, Start(h).(bit := 1, index := 1));
    assert AlignUp(8, 1) == 8;
  }

  /** A field number that is not known ends the parse without an error. */
  const UNKNOWN_INPUT: seq<octet> := [0, 0, 8, 0, 0, 0, 0x80, 0]

  lemma NotKnown()
    ensures var h := Header(UNKNOWN_INPUT, 8, 1, None);
            && IsHeader(h) && IsCursor(h, Start(h)) && Parse(h, Start(h)) == Fields([], NoMore)
  {
    hide Bit, Word, Parse, Power2;
    PowersOfTwo();
    forall q: nat | q < 23 ensures !Bit(Word(UNKNOWN_INPUT, 0), q) {
      BitsOfWord(UNKNOWN_INPUT, 0, q / 8, q % 8);
    }
    BitsOfWord(UNKNOWN_INPUT, 0, 2, 7);
    BitsOfWord(UNKNOWN_INPUT, 0, 3, 7);
    ExtendsIsBit(Word(UNKNOWN_INPUT, 0));
    var h := Header(UNKNOWN_INPUT, 8, 1, None);
    SkipZeros(h, Start(h), 23);
    ParseOne(h, Start(h).(bit := 23, index := 23));
  }

  /** Without a change of the namespace, the numbers go on in the second word, so that its bit 1 is not
      known. */
  const LONG_INPUT: seq<octet> := [0, 0, 12, 0, 0, 0, 0, 0x80, 0x02, 0, 0, 0]

  lemma ZerosOfLongInput(q: nat)
    requires q < 31
    ensures !Bit(Word(LONG_INPUT, 0), q)
  {
    hide Bit, Word, Power2;
    PowersOfTwo();
    BitsOfWord(LONG_INPUT, 0, q / 8, q % 8);
  }

  lemma BitsOfLongInput()
    ensures Bit(Word(LONG_INPUT, 0), 31) && Extends(Word(LONG_INPUT, 0)) && !Extends(Word(LONG_INPUT, 1))
    ensures !Bit(Word(LONG_INPUT, 1), 0) && Bit(Word(LONG_INPUT, 1), 1)
  {
    hide Bit, Word, Power2, Extends;
    PowersOfTwo();
    BitsOfWord(LONG_INPUT, 0, 3, 7);
    BitsOfWord(LONG_INPUT, 1, 0, 0);
    BitsOfWord(LONG_INPUT, 1, 0, 1);
    BitsOfWord(LONG_INPUT, 1, 3, 7);
    ExtendsIsBit(Word(LONG_INPUT, 0));
    ExtendsIsBit(Word(LONG_INPUT, 1));
  }

  lemma NumbersGoOn()
    ensures var h := Header(LONG_INPUT, 12, 2, None);
            && IsHeader(h) && IsCursor(h, Start(h)) && Parse(h, Start(h)) == Fields([], NoMore)
  {
    hide Bit, Word, Parse, Extends;
    BitsOfLongInput();
    forall q: nat | q < 31 ensures !Bit(Word(LONG_INPUT, 0), q) {
      ZerosOfLongInput(q);
    }
    var h := Header(LONG_INPUT, 12, 2, None);
    SkipZeros(h, Start(h), 31);
    var c := Start(h).(bit := 31, index := 31);
    ParseOne(h, c);
    var d := c.(word := 1, bit := 0, index := 32);
    assert Advance(h, c) == Silent(d);
    SkipZeros(h, d, 1);
    ParseOne(h, d.(bit := 1, index := 33));
  }
}
