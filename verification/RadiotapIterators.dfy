/** The two iterators over the fields of a radiotap header.  Pointers into the header are offsets
    from its start. */
module RadiotapIterators {
  import opened Radiotap

  const EINVAL := -22
  const ENOENT := -2

  /** In the place of what the source does with a pointer that it never set. */
  const UNSET := -1

  /** In the place of what the source does with bytes outside of the memory of the packet. */
  const OUTSIDE := -3

  method FindNamespace(vns: Option<seq<Vendor>>, oui: nat, subns: nat) returns (ns: Namespace)
    ensures ns == FindNs(vns, oui, subns)
  {
    ns := UnknownNs;
    if vns.Some? {
      var i := 0;
      while i < |vns.value|
        invariant i <= |vns.value| && ns == UnknownNs
        invariant FindFrom(vns.value, oui, subns, 0) == FindFrom(vns.value, oui, subns, i)
      {
        if vns.value[i].oui == oui && vns.value[i].subns == subns {
          return VendorNs(i);
        }
        i := i + 1;
      }
    }
  }

  ghost predicate HasChain(h: seq<octet>, length: nat)
    requires HEADER_SIZE <= |h| && length <= |h|
  {
    exists n: nat :: IsChain(h, n, length)
  }

  /** Finds the end of the chain of bitmap words. */
  method SkipBitmaps(header: seq<octet>, maxLength: nat) returns (ok: bool, arg: nat, ghost words: nat)
    requires HEADER_SIZE <= |header| && maxLength <= |header|
    ensures ok <==> HasChain(header, maxLength)
    ensures ok ==> IsChain(header, words, maxLength) && arg == ChainEnd(words)
  {
    hide Le32, Extends;
    ok, arg, words := true, HEADER_SIZE, 1;
    if Extends(Word(header, 0)) {
      if arg + WORD_SIZE > maxLength {
        NoChain(header, 1, maxLength);
        return false, arg, words;
      }
      while Extends(Le32(header, arg))
        invariant words > 0 && arg == ChainEnd(words) && arg + WORD_SIZE <= maxLength
        invariant forall k :: 0 <= k < words ==> Extends(Word(header, k))
        decreases maxLength - arg
      {
        assert Word(header, words) == Le32(header, arg);
        arg := arg + WORD_SIZE;
        words := words + 1;
        if arg + WORD_SIZE > maxLength {
          NoChain(header, words, maxLength);
          return false, arg, words;
        }
      }
      assert Word(header, words) == Le32(header, arg);
      arg := arg + WORD_SIZE;
      words := words + 1;
    }
    assert IsChain(header, words, maxLength);
  }

  /** The bit of its bitmap word that an index stands for. */
  function ArgBit(index: nat): (p: nat)
    ensures p < WORD_BITS
  {
    index % WORD_BITS
  }

  /** Result of one turn of the loop: the iterator goes on, or shows a field, or returns an error. */
  datatype Turn = GoOn | Show | Fail(error: int)

  function ErrorOf(e: Ending): int {
    match e
    case NoMore => ENOENT
    case Invalid => EINVAL
    case Unset => UNSET
  }

  /** `ieee80211_radiotap_iterator_init_rc` and `ieee80211_radiotap_iterator_next_rc` */
  class ExtendedIterator {
    var rtheader: seq<octet>
    var maxLength: nat
    var argIndex: nat
    var bitmapShifter: nat
    var arg: nat
    var resetOnExt: bool
    var nextBitmap: nat
    var vns: Option<seq<Vendor>>
    var currentNamespace: Namespace
    var isRadiotapNs: bool
    var nextNsData: Option<nat>
    var thisArgIndex: nat
    var thisArg: nat
    var thisArgSize: nat

    ghost var words: nat
    ghost var word: nat
    ghost var thisArgAlign: nat

    constructor () {
    }

    ghost function Hdr(): Header
      reads `rtheader, `maxLength, `words, `vns
    {
      Header(rtheader, maxLength, words, vns)
    }

    ghost function Cur(): Cursor
      reads `word, `argIndex, `arg, `currentNamespace, `isRadiotapNs, `nextNsData, `resetOnExt
    {
      Cursor(word, ArgBit(argIndex), argIndex, arg, currentNamespace, isRadiotapNs, nextNsData, resetOnExt)
    }

    /** The field that the caller is shown. */
    ghost function Shown(): Hit
      reads `thisArgIndex, `thisArg, `thisArgSize, `thisArgAlign, `isRadiotapNs
    {
      Hit(thisArgIndex, thisArg, thisArgSize, thisArgAlign, isRadiotapNs)
    }

    ghost predicate Valid()
      reads `rtheader, `maxLength, `words, `vns, `bitmapShifter, `nextBitmap,
            `word, `argIndex, `arg, `currentNamespace, `isRadiotapNs, `nextNsData, `resetOnExt
    {
      && IsHeader(Hdr()) && IsCursor(Hdr(), Cur())
      && bitmapShifter == Shifted(Word(rtheader, word), ArgBit(argIndex))
      && nextBitmap == PRESENT + WORD_SIZE * (word + 1)
    }

    method Init(header: seq<octet>, length: nat, vns: Option<seq<Vendor>>) returns (r: int)
      requires length <= |header|
      requires vns.Some? ==> forall v :: v in vns.value ==> IsVendor(v)
      modifies this
      ensures r == 0 || r == EINVAL
      ensures r == 0 <==> && length >= HEADER_SIZE && header[0] == 0 && Le16(header, 2) <= length
                          && HasChain(header, Le16(header, 2))
      ensures r == 0 ==> && Valid() && Cur() == Start(Hdr())
                         && Hdr() == Header(header, Le16(header, 2), words, vns)
    {
      hide Le16, Word, IsChain, HasChain, IsHeader, IsCursor, IsVendor, Shifted;
      if length < HEADER_SIZE {
        return EINVAL;
      }
      if header[0] != 0 {
        return EINVAL;
      }
      if length < Le16(header, 2) {
        return EINVAL;
      }
      var ok, args;
      ghost var n;
      ok, args, n := SkipBitmaps(header, Le16(header, 2));
      if !ok {
        return EINVAL;
      }
      HeaderIs(Header(header, Le16(header, 2), n, vns));
      StartIsCursor(Header(header, Le16(header, 2), n, vns));
      SetHeader(header, Le16(header, 2), vns, n);
      SetCursor(args);
      bitmapShifter := Word(header, 0);
      nextBitmap := PRESENT + WORD_SIZE;
      r := 0;
    }

    method SetHeader(header: seq<octet>, length: nat, vns: Option<seq<Vendor>>, ghost n: nat)
      modifies `rtheader, `maxLength, `vns, `words
      ensures Hdr() == Header(header, length, n, vns)
    {
      rtheader, maxLength := header, length;
      this.vns := vns;
      words := n;
    }

    /** At the start of the fields. */
    method SetCursor(args: nat)
      modifies `argIndex, `arg, `resetOnExt, `currentNamespace, `isRadiotapNs, `nextNsData, `word, `thisArg
      ensures argIndex == 0 && Cur() == Cursor(0, 0, 0, args, RadiotapNs, true, None, false)
    {
      argIndex := 0;
      arg, thisArg := args, args;
      resetOnExt := false;
      currentNamespace, isRadiotapNs, nextNsData := RadiotapNs, true, None;
      word := 0;
    }

    /** The arg is not present, or done with. */
    method NextEntry()
      requires Valid() && ArgBit(argIndex) < EXT
      modifies `bitmapShifter, `argIndex
      ensures Valid() && Cur() == NextBit(old(Cur()))
    {
      hide IsHeader, IsCursor, Word;
      BitAdvances(Hdr(), Cur());
      bitmapShifter := bitmapShifter / 2;
      argIndex := argIndex + 1;
    }

    /** Accounts for alignment padding. */
    method Pad(align: nat)
      requires Valid() && align > 0
      modifies `arg
      ensures Valid() && Cur() == old(Cur()).(at := AlignUp(old(arg), align))
    {
      hide ArgBit, IsHeader, IsCursor, Word, Shifted;
      FurtherOn(Hdr(), Cur(), AlignUp(arg, align));
      var pad := arg % align;
      if pad != 0 {
        arg := arg + align - pad;
      }
    }

    /** What is returned to the caller, and the move past it. */
    method Take(size: nat, ghost align: nat)
      requires Valid()
      modifies `thisArgIndex, `thisArg, `thisArgSize, `thisArgAlign, `arg
      ensures Valid() && Cur() == old(Cur()).(at := old(arg) + size)
      ensures Shown() == Hit(argIndex, old(arg), size, align, isRadiotapNs)
    {
      hide ArgBit, IsHeader, IsCursor, Word, Shifted, AlignUp;
      FurtherOn(Hdr(), Cur(), arg + size);
      var here := arg;
      arg := here + size;
      thisArgIndex, thisArg, thisArgSize, thisArgAlign := argIndex, here, size, align;
    }

    /** What one turn of the loop has done, as `Advance` says. */
    twostate predicate Did(t: Turn, m: Move)
      reads this
    {
      && Valid() && Hdr() == old(Hdr())
      && match m
         case Stopped(e) => t == Fail(ErrorOf(e))
         case Silent(d) => t == GoOn && Cur() == d
         case Found(hit, d) => t == Show && Shown() == hit && Cur() == d
    }

    /** All subsequent data of the namespace is skipped. */
    method GiveUp() returns (t: Turn)
      requires Valid() && ArgBit(argIndex) < RADIOTAP_NAMESPACE
      modifies `bitmapShifter, `argIndex, `arg, `currentNamespace
      ensures Did(t, AdvanceField(old(Hdr()), old(Cur()), Skip))
    {
      hide IsHeader, Word, Shifted;
      if nextNsData.None? {
        return Fail(UNSET);
      }
      arg := nextNsData.value;
      currentNamespace := UnknownNs;
      NextEntry();
      t := GoOn;
    }

    method TakeField(e: Entry) returns (t: Turn)
      requires Valid() && ArgBit(argIndex) < RADIOTAP_NAMESPACE && e.align > 0
      modifies `bitmapShifter, `argIndex, `arg, `thisArgIndex, `thisArg, `thisArgSize, `thisArgAlign
      ensures Did(t, AdvanceField(old(Hdr()), old(Cur()), Known(e)))
    {
      hide ArgBit, IsHeader, IsCursor, Word, Shifted, AlignUp;
      Pad(e.align);
      Take(e.size, e.align);
      if arg > maxLength {
        return Fail(EINVAL);
      }
      NextEntry();
      t := Show;
    }

    /** A field of the current namespace. */
    method TurnField() returns (t: Turn)
      requires Valid() && ArgBit(argIndex) < RADIOTAP_NAMESPACE
      modifies `bitmapShifter, `argIndex, `arg, `currentNamespace, `thisArgIndex, `thisArg, `thisArgSize, `thisArgAlign
      ensures Did(t, AdvanceField(old(Hdr()), old(Cur()), LookUp(old(vns), old(currentNamespace), old(argIndex))))
    {
      hide IsHeader, Word, Shifted, AdvanceField;
      var e := Entry(0, 0);
      if currentNamespace == UnknownNs || argIndex >= NBits(vns, currentNamespace) {
        if currentNamespace == RadiotapNs {
          assert AdvanceField(Hdr(), Cur(), Stop) == Stopped(NoMore) by { StopsHere(Hdr(), Cur()); }
          return Fail(ENOENT);
        }
      } else {
        e := FieldOf(vns, currentNamespace, argIndex);
      }
      if e.align == 0 {
        t := GiveUp();
      } else {
        t := TakeField(e);
      }
    }

    /** An arg without data, of the bits that are valid in each bitmap word. */
    method TakeNothing() returns (ok: bool)
      requires Valid()
      modifies `arg, `thisArgIndex, `thisArg, `thisArgSize, `thisArgAlign
      ensures Valid() && Cur() == old(Cur()) && (ok <==> arg <= maxLength)
    {
      hide ArgBit, IsHeader, IsCursor, Word, Shifted;
      Pad(1);
      Take(0, 1);
      ok := arg <= maxLength;
    }

    /** Bit 31 is set: on to the next bitmap word. */
    method NextBitmap()
      requires Valid() && ArgBit(argIndex) == EXT && bitmapShifter % 2 == 1
      modifies `bitmapShifter, `nextBitmap, `word, `argIndex, `resetOnExt
      ensures Valid() && Cur() == NextWord(old(Cur()))
    {
      hide IsHeader, IsCursor, Le32, Word, Shifted;
      WordAdvances(Hdr(), Cur());
      WordInside(Hdr(), Cur());
      bitmapShifter := Le32(rtheader, nextBitmap);
      nextBitmap := nextBitmap + WORD_SIZE;
      word := word + 1;
      if resetOnExt {
        argIndex := 0;
      } else {
        argIndex := argIndex + 1;
      }
      resetOnExt := false;
    }

    method TurnExt() returns (t: Turn)
      requires Valid() && ArgBit(argIndex) == EXT && bitmapShifter % 2 == 1
      modifies `bitmapShifter, `nextBitmap, `word, `argIndex, `arg, `resetOnExt,
               `thisArgIndex, `thisArg, `thisArgSize, `thisArgAlign
      ensures Did(t, Advance(old(Hdr()), old(Cur())))
    {
      hide ArgBit, IsHeader, IsCursor, Word, Shifted;
      var ok := TakeNothing();
      if !ok {
        return Fail(EINVAL);
      }
      NextBitmap();
      t := GoOn;
    }

    /** The switch to the radiotap namespace. */
    method TurnRadiotap() returns (t: Turn)
      requires Valid() && ArgBit(argIndex) == RADIOTAP_NAMESPACE && bitmapShifter % 2 == 1
      modifies `bitmapShifter, `argIndex, `arg, `resetOnExt, `currentNamespace, `isRadiotapNs,
               `thisArgIndex, `thisArg, `thisArgSize, `thisArgAlign
      ensures Did(t, Advance(old(Hdr()), old(Cur())))
    {
      hide IsHeader, Word, Shifted;
      var ok := TakeNothing();
      if !ok {
        return Fail(EINVAL);
      }
      resetOnExt := true;
      currentNamespace, isRadiotapNs := RadiotapNs, true;
      NextEntry();
      t := GoOn;
    }

    /** The switch to a vendor namespace: how many bytes it takes, if it is there at all. */
    method FindVendor() returns (ok: bool, size: nat)
      requires Valid()
      modifies `currentNamespace, `nextNsData
      ensures Valid() && (ok <==> arg + 6 <= maxLength)
      ensures Cur() == old(Cur()).(ns := currentNamespace, nextNsData := nextNsData)
      ensures ok ==> && currentNamespace == FindNs(vns, Oui(rtheader, arg), rtheader[arg + 3] as nat)
                     && nextNsData == Some(arg + 6 + Le16(rtheader, arg + 4))
                     && size == if currentNamespace == UnknownNs then 6 + Le16(rtheader, arg + 4) else 6
      ensures !ok ==> currentNamespace == old(currentNamespace) && nextNsData == old(nextNsData)
    {
      hide IsChain, Word, Shifted, Oui, Le16;
      ok, size := false, 6;
      if arg + size <= maxLength {
        ok := true;
        currentNamespace := FindNamespace(vns, Oui(rtheader, arg), rtheader[arg + 3] as nat);
        var vnsLen := Le16(rtheader, arg + 4);
        nextNsData := Some(arg + size + vnsLen);
        VendorFound(Hdr(), old(Cur()), currentNamespace, arg + 6 + vnsLen);
        if currentNamespace == UnknownNs {
          size := size + vnsLen;
        }
      }
    }

    /** Past the name of the vendor namespace, and past its data if these are shown. */
    method EnterVendor(size: nat) returns (ok: bool)
      requires Valid() && ArgBit(argIndex) == VENDOR_NAMESPACE
      modifies `bitmapShifter, `argIndex, `arg, `resetOnExt, `isRadiotapNs,
               `thisArgIndex, `thisArg, `thisArgSize, `thisArgAlign
      ensures Valid() && (ok <==> old(arg) + size <= maxLength)
      ensures ok ==> Cur() == NextBit(old(Cur())).(at := old(arg) + size, radiotap := false, resetOnExt := true)
      ensures ok ==> Shown() == Hit(VENDOR_NAMESPACE, old(arg), size, 2, false)
    {
      hide ArgBit, IsHeader, IsCursor, Word, Shifted;
      Take(size, 2);
      if arg > maxLength {
        return false;
      }
      FlagsAreFree(Hdr(), Cur(), false, true);
      resetOnExt := true;
      isRadiotapNs := false;
      thisArgIndex := VENDOR_NAMESPACE;
      NextEntry();
      ok := true;
    }

    method TurnVendor() returns (t: Turn)
      requires Valid() && ArgBit(argIndex) == VENDOR_NAMESPACE
      modifies `bitmapShifter, `argIndex, `arg, `resetOnExt, `currentNamespace, `isRadiotapNs, `nextNsData,
               `thisArgIndex, `thisArg, `thisArgSize, `thisArgAlign
      ensures Did(t, AdvanceVendor(old(Hdr()), old(Cur())))
    {
      hide ArgBit, IsHeader, IsCursor, Word, Shifted, Oui, Le16, AlignUp, FindNs, AdvanceVendor;
      ghost var h, c := Hdr(), Cur();
      Pad(2);
      var ok, size := FindVendor();
      ghost var at, ns := arg, currentNamespace;
      VendorMoveIs(h, c, at, ns, nextNsData, size);
      if !ok {
        return Fail(EINVAL);
      }
      t := if currentNamespace == UnknownNs then Show else GoOn;
      ok := EnterVendor(size);
      if !ok {
        t := Fail(EINVAL);
      }
    }

    method OneTurn() returns (t: Turn)
      requires Valid()
      modifies this
      ensures Did(t, Advance(old(Hdr()), old(Cur())))
    {
      hide IsHeader, IsCursor, Word, Shifted, AdvanceField, AdvanceVendor, LookUp;
      if ArgBit(argIndex) == EXT && bitmapShifter % 2 == 0 {
        return Fail(ENOENT);
      }
      if bitmapShifter % 2 == 0 {
        NextEntry();
        return GoOn;
      }
      if ArgBit(argIndex) == RADIOTAP_NAMESPACE {
        t := TurnRadiotap();
      } else if ArgBit(argIndex) == EXT {
        t := TurnExt();
      } else if ArgBit(argIndex) == VENDOR_NAMESPACE {
        t := TurnVendor();
      } else {
        t := TurnField();
      }
    }

    method Next() returns (r: int)
      requires Valid()
      modifies this
      ensures Valid() && Hdr() == old(Hdr())
      ensures r == 0 ==> Parse(Hdr(), old(Cur())) == Before(Shown(), Parse(Hdr(), Cur()))
      ensures r == 0 ==> IsInside(Hdr(), Shown()) && HitsLeft(Hdr(), Cur()) < HitsLeft(Hdr(), old(Cur()))
      ensures r == 0 || r == -2 || r == -22 || r == -1
      ensures r == -2 ==> Parse(Hdr(), old(Cur())) == Fields([], NoMore)
      ensures r == -22 ==> Parse(Hdr(), old(Cur())) == Fields([], Invalid)
      ensures r == -1 ==> Parse(Hdr(), old(Cur())) == Fields([], Unset)
    {
      hide IsHeader, IsCursor, Word, Shifted, Advance, IsInside, HitsLeft, BitsLeft;
      ghost var h, c := Hdr(), Cur();
      while true
        invariant Valid() && Hdr() == h && IsHeader(h) && IsCursor(h, c)
        invariant Parse(h, Cur()) == Parse(h, c) && HitsLeft(h, Cur()) <= HitsLeft(h, c)
        decreases BitsLeft(h, Cur())
      {
        ghost var now := Cur();
        if !Advance(h, now).Stopped? {
          AdvanceAdvances(h, now);
          HitsLeftDecreases(h, now);
          if Advance(h, now).Found? {
            FoundInside(h, now);
          }
        }
        var t := OneTurn();
        match t
        case GoOn =>
        case Show => return 0;
        case Fail(e) => return e;
      }
    }
  }

  lemma FurtherOn(h: Header, c: Cursor, at: nat)
    requires IsHeader(h) && IsCursor(h, c) && at >= c.at
    ensures IsCursor(h, c.(at := at))
  {
    hide IsChain;
  }

  lemma FlagsAreFree(h: Header, c: Cursor, radiotap: bool, resetOnExt: bool)
    requires IsHeader(h) && IsCursor(h, c)
    ensures IsCursor(h, c.(radiotap := radiotap, resetOnExt := resetOnExt))
  {
    hide IsChain;
  }

  lemma VendorFound(h: Header, c: Cursor, ns: Namespace, next: nat)
    requires IsHeader(h) && IsCursor(h, c) && IsNamespace(h.vns, ns) && next >= c.at
    ensures IsCursor(h, c.(ns := ns, nextNsData := Some(next)))
  {
    hide IsChain;
  }

  lemma VendorMoveIs(h: Header, c: Cursor, at: nat, ns: Namespace, next: Option<nat>, size: nat)
    requires IsHeader(h) && IsCursor(h, c) && at == AlignUp(c.at, 2)
    requires at + 6 <= h.length ==>
      && ns == FindNs(h.vns, Oui(h.bytes, at), h.bytes[at + 3] as nat)
      && next == Some(at + 6 + Le16(h.bytes, at + 4))
      && size == if ns == UnknownNs then 6 + Le16(h.bytes, at + 4) else 6
    ensures AdvanceVendor(h, c) ==
      (var d := NextBit(c).(at := at + size, ns := ns, radiotap := false, nextNsData := next, resetOnExt := true);
       if at + 6 > h.length || at + size > h.length then Stopped(Invalid)
       else if ns == UnknownNs then Found(Hit(VENDOR_NAMESPACE, at, size, 2, false), d)
       else Silent(d))
  {
    hide AlignUp, FindNs, Oui, Le16, IsChain, IsCursor;
  }

  lemma StopsHere(h: Header, c: Cursor)
    requires IsHeader(h) && IsCursor(h, c)
    ensures AdvanceField(h, c, Stop) == Stopped(NoMore)
  {}

  /** The next bitmap word is one of those that were checked in the beginning. */
  lemma WordInside(h: Header, c: Cursor)
    requires IsHeader(h) && IsCursor(h, c) && c.bit == EXT && Present(h, c)
    ensures c.word + 1 < h.words && PRESENT + WORD_SIZE * (c.word + 2) <= ChainEnd(h.words) <= h.length <= |h.bytes|
    ensures var w := Word(h.bytes, c.word + 1);
            w == Le32(h.bytes, PRESENT + WORD_SIZE * (c.word + 1)) == Shifted(w, 0)
  {
    ExtendedWord(h, c);
  }

  function NBits(vns: Option<seq<Vendor>>, ns: Namespace): nat
    requires IsNamespace(vns, ns) && ns != UnknownNs
  {
    if ns == RadiotapNs then RTAP_N_BITS else |vns.value[ns.which].fields|
  }

  function FieldOf(vns: Option<seq<Vendor>>, ns: Namespace, i: nat): Entry
    requires IsNamespace(vns, ns) && ns != UnknownNs && i < NBits(vns, ns)
  {
    if ns == RadiotapNs then RtapSize(i) else vns.value[ns.which].fields[i]
  }

  lemma HeaderIs(h: Header)
    requires HEADER_SIZE <= |h.bytes| && h.length <= |h.bytes| && IsChain(h.bytes, h.words, h.length)
    requires h.vns.Some? ==> forall v :: v in h.vns.value ==> IsVendor(v)
    ensures IsHeader(h)
  {
    hide IsVendor, IsChain;
  }

  /** If the first `n` words promise another one, but it does not fit, then there is no chain. */
  lemma NoChain(h: seq<octet>, n: nat, length: nat)
    requires HEADER_SIZE <= |h| && length <= |h| && n > 0 && (n > 1 ==> ChainEnd(n) <= length)
    requires forall k :: 0 <= k < n ==> Extends(Word(h, k))
    requires ChainEnd(n + 1) > length
    ensures !HasChain(h, length)
  {
    forall m: nat
      ensures !IsChain(h, m, length)
    {
      if 0 < m <= n {
        assert Extends(Word(h, m - 1));
      }
    }
  }

  /** As `IsChain`, but the last bitmap word, and the second one, may lie beyond the length. */
  ghost predicate IsLooseChain(h: seq<octet>, n: nat, length: nat)
    requires HEADER_SIZE <= |h|
  {
    && n > 0 && ChainEnd(n) <= |h| && (n > 2 ==> ChainEnd(n - 1) <= length)
    && (forall k :: 0 <= k < n - 1 ==> Extends(Word(h, k)))
    && !Extends(Word(h, n - 1))
  }

  /** The memory ends with `n` bitmap words, which promise another one within the length or just behind
      it. */
  ghost predicate RunsOut(h: seq<octet>, n: nat, length: nat)
    requires HEADER_SIZE <= |h|
  {
    && n > 0 && ChainEnd(n) <= |h| < ChainEnd(n + 1) && (n > 1 ==> ChainEnd(n) <= length)
    && (forall k :: 0 <= k < n ==> Extends(Word(h, k)))
  }

  /** As `SkipBitmaps`, but looks only afterwards whether there was a bitmap word. */
  method SkipBitmapsLoosely(header: seq<octet>, maxLength: nat) returns (r: int, arg: nat, ghost words: nat)
    requires HEADER_SIZE <= |header|
    ensures r == 0 || r == EINVAL || r == OUTSIDE
    ensures r == 0 <==> exists n: nat :: IsLooseChain(header, n, maxLength)
    ensures r == OUTSIDE <==> exists n: nat :: RunsOut(header, n, maxLength)
    ensures r == 0 ==> IsLooseChain(header, words, maxLength) && arg == ChainEnd(words)
  {
    hide Le32, Extends;
    r, arg, words := 0, HEADER_SIZE, 1;
    if Extends(Word(header, 0)) {
      while true
        invariant words > 0 && arg == ChainEnd(words) <= |header| && (words > 1 ==> arg <= maxLength)
        invariant forall k :: 0 <= k < words ==> Extends(Word(header, k))
        decreases |header| - arg
      {
        if arg + WORD_SIZE > |header| {
          ChainRunsOut(header, words, maxLength);
          return OUTSIDE, arg, words;
        }
        assert Word(header, words) == Le32(header, arg);
        if !Extends(Le32(header, arg)) {
          break;
        }
        arg := arg + WORD_SIZE;
        words := words + 1;
        if arg > maxLength {
          ChainTooLong(header, words, maxLength);
          return EINVAL, arg, words;
        }
      }
      arg := arg + WORD_SIZE;
      words := words + 1;
    }
    ChainEnds(header, words, maxLength);
  }

  lemma ChainRunsOut(h: seq<octet>, n: nat, length: nat)
    requires HEADER_SIZE <= |h| && RunsOut(h, n, length)
    ensures forall m: nat :: !IsLooseChain(h, m, length)
  {
    hide Word, Extends;
    forall m: nat
      ensures !IsLooseChain(h, m, length)
    {
      if 0 < m <= n {
        assert Extends(Word(h, m - 1));
      }
    }
  }

  lemma ChainTooLong(h: seq<octet>, n: nat, length: nat)
    requires HEADER_SIZE <= |h| && n > 1 && length < ChainEnd(n) <= |h|
    requires forall k :: 0 <= k < n ==> Extends(Word(h, k))
    ensures forall m: nat :: !IsLooseChain(h, m, length)
    ensures forall m: nat :: !RunsOut(h, m, length)
  {
    hide Word, Extends;
    forall m: nat
      ensures !IsLooseChain(h, m, length)
    {
      if 0 < m <= n {
        assert Extends(Word(h, m - 1));
      }
    }
  }

  lemma ChainEnds(h: seq<octet>, n: nat, length: nat)
    requires HEADER_SIZE <= |h| && IsLooseChain(h, n, length)
    ensures forall m: nat :: !RunsOut(h, m, length)
  {
    hide Word, Extends;
  }

  /** The memory of the packet ends before something that is read. */
  ghost predicate RunsOutAtInit(h: seq<octet>, length: int) {
    |h| == 0 ||
    (h[0] == 0 && (|h| < PRESENT ||
                   (Le16(h, 2) <= length && (|h| < HEADER_SIZE || exists n: nat :: RunsOut(h, n, Le16(h, 2))))))
  }

  /** A header of eight bytes whose only bitmap word promises another one. */
  const UNFINISHED: seq<octet> := [0, 0, 8, 0, 0, 0, 0, 0x80]

  lemma RunsOutInput()
    ensures RunsOutAtInit(UNFINISHED, 8)
  {
    assert Le16(UNFINISHED, 2) == 8;
    assert Extends(Word(UNFINISHED, 0));
    assert RunsOut(UNFINISHED, 1, 8);
  }

  /** `ieee80211_radiotap_iterator_init` and `ieee80211_radiotap_iterator_next` */
  class PlainIterator {
    var rtheader: seq<octet>
    var maxLength: nat
    var argIndex: nat
    var bitmapShifter: nat
    var arg: nat
    var thisArgIndex: nat
    var thisArg: nat

    ghost var word: nat
    ghost var words: nat

    constructor () {
    }

    /** Only the first bitmap word is ever looked at: its fields come to an end before its bits do. */
    ghost predicate Valid()
      reads this
    {
      argIndex <= RT_SIZES && bitmapShifter == Shifted(word, argIndex)
    }

    /** At the start of a header. */
    ghost predicate Started()
      reads this
    {
      && HEADER_SIZE <= |rtheader| && IsLooseChain(rtheader, words, maxLength)
      && word == Word(rtheader, 0) && argIndex == 0 && arg == ChainEnd(words)
    }

    /** The fields that are still to come. */
    ghost function Ahead(): Fields
      requires argIndex <= RT_SIZES
      reads this
    {
      Walk(word, argIndex, arg, maxLength)
    }

    /** Neither the fixed part of the header nor the chain of bitmap words is known to be in memory when
        it is read. */
    method Init(header: seq<octet>, length: int) returns (r: int)
      modifies this
      ensures r == 0 || r == EINVAL || r == OUTSIDE
      ensures r == 0 <==> && HEADER_SIZE <= |header| && header[0] == 0 && Le16(header, 2) <= length
                          && exists n: nat :: IsLooseChain(header, n, Le16(header, 2))
      ensures r == OUTSIDE <==> RunsOutAtInit(header, length)
      ensures r == 0 ==> Valid() && Started() && rtheader == header && maxLength == Le16(header, 2)
    {
      hide Le16, Le32, Walk, Extends;
      if |header| == 0 {
        return OUTSIDE;
      }
      if header[0] != 0 {
        return EINVAL;
      }
      if |header| < PRESENT {
        return OUTSIDE;
      }
      if length < Le16(header, 2) {
        return EINVAL;
      }
      if |header| < HEADER_SIZE {
        return OUTSIDE;
      }
      rtheader, maxLength := header, Le16(header, 2);
      argIndex, bitmapShifter := 0, Word(header, 0);
      thisArg := 0;
      word := bitmapShifter;
      r, arg, words := SkipBitmapsLoosely(header, maxLength);
    }

    /** One turn of the loop. */
    method OneTurn() returns (t: Turn)
      requires Valid() && argIndex < RT_SIZES
      modifies `argIndex, `bitmapShifter, `arg, `thisArgIndex, `thisArg
      ensures Valid()
      ensures t == GoOn ==> Ahead() == old(Ahead()) && argIndex == old(argIndex) + 1
      ensures t == Show ==> old(Ahead()).hits != [] && var hit := old(Ahead()).hits[0];
                            hit.index == thisArgIndex && hit.at == thisArg && old(Ahead()) == Before(hit, Ahead())
      ensures t.Fail? ==> t.error == EINVAL && old(Ahead()) == Fields([], Invalid)
    {
      hide Walk, AlignUp, Shifted, RtSize, RtapSize;
      t := GoOn;
      WalkOne(word, argIndex, arg, maxLength);
      if bitmapShifter % 2 == 1 {
        var e := RtSize(argIndex);
        PaddedIs(arg, e.align);
        var pad := arg % e.align;
        if pad != 0 {
          arg := arg + e.align - pad;
        }
        thisArgIndex, thisArg := argIndex, arg;
        t := Show;
        arg := arg + e.size;
        if arg > maxLength {
          return Fail(EINVAL);
        }
      }
      argIndex := argIndex + 1;
      ShiftedOn(word, argIndex);
      bitmapShifter := bitmapShifter / 2;
    }

    method Next() returns (r: int)
      requires Valid()
      modifies `argIndex, `bitmapShifter, `arg, `thisArgIndex, `thisArg
      ensures Valid()
      ensures r == 0 ==> old(Ahead()).hits != [] && var hit := old(Ahead()).hits[0];
                         hit.index == thisArgIndex && hit.at == thisArg && old(Ahead()) == Before(hit, Ahead())
      ensures r == 0 || r == -2 || r == -22
      ensures r == -2 ==> old(Ahead()) == Fields([], NoMore)
      ensures r == -22 ==> old(Ahead()) == Fields([], Invalid)
    {
      ghost var ahead := Ahead();
      WalkEnds(word, arg, maxLength);
      hide Walk, Shifted;
      while argIndex < RT_SIZES
        invariant Valid() && Ahead() == ahead
        invariant word == old(word)
      {
        var t := OneTurn();
        match t
        case GoOn =>
        case Show => return 0;
        case Fail(e) => return e;
      }
      WalkEnds(word, arg, maxLength);
      r := ENOENT;
    }
  }

  lemma SameChain(h: seq<octet>, n: nat, m: nat, length: nat)
    requires HEADER_SIZE <= |h| && length <= |h| && IsChain(h, n, length) && IsLooseChain(h, m, length)
    ensures n == m
  {
    hide Extends, Word;
  }

  /** Two iterators at the start of the same header have the same fields to show, up to the first one
      that only the extended iterator shows, and run into the same length error before that. */
  lemma IteratorsAgree(e: ExtendedIterator, p: PlainIterator) returns (later: seq<Hit>)
    requires e.Valid() && e.Cur() == Start(e.Hdr())
    requires p.Valid() && p.Started() && p.rtheader == e.rtheader && p.maxLength == e.maxLength
    ensures var f, g := Parse(e.Hdr(), e.Cur()), p.Ahead();
            && f.hits == g.hits + later
            && (forall hit :: hit in g.hits ==> hit.index < 14)
            && (e.words == 1 ==> forall hit :: hit in later ==> hit.index >= 14)
            && (g.ending == Invalid ==> later == [] && f.ending == Invalid)
            && g.ending != Unset
  {
    hide Parse, Walk, Extends;
    SameChain(e.rtheader, e.words, p.words, e.maxLength);
    later := FirstFields(e.Hdr());
  }

  lemma PaddedIs(at: nat, align: nat)
    requires align > 0
    ensures AlignUp(at, align) == if at % align != 0 then at + align - at % align else at
  {}

  lemma ShiftedOn(w: nat, i: nat)
    requires i > 0
    ensures Shifted(w, i) == Shifted(w, i - 1) / 2
  {}
}
