/**
 * The discount2 shim: translation of a 32-bit v2 flag word into a v3 flag set
 * (convert_v2flags of v2compat.c).
 */
module V2Compat {
  import opened FlagIds
  import Flags

  datatype Option<T> = None | Some(value: T)

  // The 2.2.6 flag word: one bit per historical option.
  const MKD2_NOLINKS: bv32         := 0x00000001
  const MKD2_NOIMAGE: bv32         := 0x00000002
  const MKD2_NOPANTS: bv32         := 0x00000004
  const MKD2_NOHTML: bv32          := 0x00000008
  const MKD2_STRICT: bv32          := 0x00000010
  const MKD2_TAGTEXT: bv32         := 0x00000020
  const MKD2_NO_EXT: bv32          := 0x00000040
  const MKD2_CDATA: bv32           := 0x00000080
  const MKD2_NOSUPERSCRIPT: bv32   := 0x00000100
  const MKD2_STRICT2: bv32         := 0x00000200
  const MKD2_NOTABLES: bv32        := 0x00000400
  const MKD2_NOSTRIKETHROUGH: bv32 := 0x00000800
  const MKD2_TOC: bv32             := 0x00001000
  const MKD2_1_COMPAT: bv32        := 0x00002000
  const MKD2_AUTOLINK: bv32        := 0x00004000
  const MKD2_SAFELINK: bv32        := 0x00008000
  const MKD2_NOHEADER: bv32        := 0x00010000
  const MKD2_TABSTOP: bv32         := 0x00020000
  const MKD2_NODIVQUOTE: bv32      := 0x00040000
  const MKD2_NOALPHALIST: bv32     := 0x00080000
  const MKD2_NODLIST: bv32         := 0x00100000
  const MKD2_EXTRA_FOOTNOTE: bv32  := 0x00200000
  const MKD2_NOSTYLE: bv32         := 0x00400000
  const MKD2_NODLDISCOUNT: bv32    := 0x00800000
  const MKD2_DLEXTRA: bv32         := 0x01000000
  const MKD2_FENCEDCODE: bv32      := 0x02000000
  const MKD2_IDANCHOR: bv32        := 0x04000000
  const MKD2_GITHUBTAGS: bv32      := 0x08000000
  const MKD2_URLENCODEDANCHOR: bv32 := 0x10000000
  const MKD2_LATEX: bv32           := 0x40000000
  const MKD2_EXPLICITLIST: bv32    := 0x80000000

  /** The single-bit word for bit position i (`1L << i`). */
  function Bit(i: nat): bv32
    requires i < 32
  {
    (1 as bv32) << (i as bv5)
  }

  /** Whether bit position i is set in mask m. */
  predicate HasBit(m: bv32, i: nat)
    requires i < 32
  {
    m & Bit(i) != 0
  }

  /**
   * The case ladder of the switch in convert_v2flags: the v3 flag that the
   * masked value `bitmask & bit` selects, or None when no case matches.
   */
  function SwitchCase(v: bv32): (r: Option<Flag>)
    ensures v == 0 ==> r.None?
    ensures r.Some? ==> r.value != NORMAL_LISTITEM && r.value != ALT_AS_TITLE
  {
    if v == MKD2_STRICT then Some(STRICT)
    else if v == MKD2_NOLINKS then Some(NOLINKS)
    else if v == MKD2_NOIMAGE then Some(NOIMAGE)
    else if v == MKD2_NOPANTS then Some(NOPANTS)
    else if v == MKD2_NOHTML then Some(NOHTML)
    else if v == MKD2_TAGTEXT then Some(TAGTEXT)
    else if v == MKD2_NO_EXT then Some(NO_EXT)
    else if v == MKD2_CDATA then Some(CDATA)
    else if v == MKD2_NOSUPERSCRIPT then Some(NOSUPERSCRIPT)
    else if v == MKD2_STRICT2 then Some(STRICT)
    else if v == MKD2_NOTABLES then Some(NOTABLES)
    else if v == MKD2_NOSTRIKETHROUGH then Some(NOSTRIKETHROUGH)
    else if v == MKD2_TOC then Some(TOC)
    else if v == MKD2_1_COMPAT then Some(ONE_COMPAT)
    else if v == MKD2_AUTOLINK then Some(AUTOLINK)
    else if v == MKD2_SAFELINK then Some(SAFELINK)
    else if v == MKD2_NOHEADER then Some(NOHEADER)
    else if v == MKD2_TABSTOP then Some(TABSTOP)
    else if v == MKD2_NODIVQUOTE then Some(NODIVQUOTE)
    else if v == MKD2_NOALPHALIST then Some(NOALPHALIST)
    else if v == MKD2_EXTRA_FOOTNOTE then Some(EXTRA_FOOTNOTE)
    else if v == MKD2_NOSTYLE then Some(NOSTYLE)
    else if v == MKD2_NODLDISCOUNT then Some(DLDISCOUNT)
    else if v == MKD2_DLEXTRA then Some(DLEXTRA)
    else if v == MKD2_FENCEDCODE then Some(FENCEDCODE)
    else if v == MKD2_IDANCHOR then Some(IDANCHOR)
    else if v == MKD2_GITHUBTAGS then Some(GITHUBTAGS)
    else if v == MKD2_URLENCODEDANCHOR then Some(URLENCODEDANCHOR)
    else if v == MKD2_LATEX then Some(LATEX)
    else if v == MKD2_EXPLICITLIST then Some(EXPLICITLIST)
    else None
  }

  /**
   * The compatibility contract written as a table keyed by bit position:
   * entry i is the v3 flag that legacy bit i turns on, None for a retired bit.
   */
  function LegacyEntry(i: nat): (r: Option<Flag>)
    requires i < 32
    ensures r == Some(DLDISCOUNT) <==> i == 23
    ensures r.Some? ==> r.value != NORMAL_LISTITEM && r.value != ALT_AS_TITLE
  {
    match i
    case 0 => Some(NOLINKS)
    case 1 => Some(NOIMAGE)
    case 2 => Some(NOPANTS)
    case 3 => Some(NOHTML)
    case 4 => Some(STRICT)
    case 5 => Some(TAGTEXT)
    case 6 => Some(NO_EXT)
    case 7 => Some(CDATA)
    case 8 => Some(NOSUPERSCRIPT)
    case 9 => Some(STRICT)
    case 10 => Some(NOTABLES)
    case 11 => Some(NOSTRIKETHROUGH)
    case 12 => Some(TOC)
    case 13 => Some(ONE_COMPAT)
    case 14 => Some(AUTOLINK)
    case 15 => Some(SAFELINK)
    case 16 => Some(NOHEADER)
    case 17 => Some(TABSTOP)
    case 18 => Some(NODIVQUOTE)
    case 19 => Some(NOALPHALIST)
    case 20 => None
    case 21 => Some(EXTRA_FOOTNOTE)
    case 22 => Some(NOSTYLE)
    case 23 => Some(DLDISCOUNT)
    case 24 => Some(DLEXTRA)
    case 25 => Some(FENCEDCODE)
    case 26 => Some(IDANCHOR)
    case 27 => Some(GITHUBTAGS)
    case 28 => Some(URLENCODEDANCHOR)
    case 29 => None
    case 30 => Some(LATEX)
    case 31 => Some(EXPLICITLIST)
  }

  /** The flags that bits 0..n-1 of m select through the table, plus the forced default. */
  function ConvertedUpTo(m: bv32, n: nat): (r: set<Flag>)
    requires n <= 32
    ensures DLDISCOUNT in r
    ensures NORMAL_LISTITEM !in r && ALT_AS_TITLE !in r
  {
    {DLDISCOUNT} + set i | 0 <= i < n && HasBit(m, i) && LegacyEntry(i).Some? :: LegacyEntry(i).value
  }

  /** The v3 flag set that convert_v2flags builds from m. */
  function Converted(m: bv32): set<Flag>
  {
    ConvertedUpTo(m, 32)
  }

  /** Masking with a single bit leaves either nothing or that bit. */
  lemma MaskedBit(m: bv32, i: nat)
    requires i < 32
    ensures m & Bit(i) == if HasBit(m, i) then Bit(i) else 0
  {
  }

  lemma SwitchOnBits0To7(i: nat)
    requires 0 <= i < 8
    ensures SwitchCase(Bit(i)) == LegacyEntry(i)
  {
    if i == 0 { }
    else if i == 1 { }
    else if i == 2 { }
    else if i == 3 { }
    else if i == 4 { }
    else if i == 5 { }
    else if i == 6 { }
    else if i == 7 { }
  }

  lemma SwitchOnBits8To15(i: nat)
    requires 8 <= i < 16
    ensures SwitchCase(Bit(i)) == LegacyEntry(i)
  {
    if i == 8 { }
    else if i == 9 { }
    else if i == 10 { }
    else if i == 11 { }
    else if i == 12 { }
    else if i == 13 { }
    else if i == 14 { }
    else if i == 15 { }
  }

  lemma SwitchOnBits16To23(i: nat)
    requires 16 <= i < 24
    ensures SwitchCase(Bit(i)) == LegacyEntry(i)
  {
    if i == 16 { }
    else if i == 17 { }
    else if i == 18 { }
    else if i == 19 { }
    else if i == 20 { }
    else if i == 21 { }
    else if i == 22 { }
    else if i == 23 { }
  }

  lemma SwitchOnBits24To31(i: nat)
    requires 24 <= i < 32
    ensures SwitchCase(Bit(i)) == LegacyEntry(i)
  {
    if i == 24 { }
    else if i == 25 { }
    else if i == 26 { }
    else if i == 27 { }
    else if i == 28 { }
    else if i == 29 { }
    else if i == 30 { }
    else if i == 31 { }
  }

  /** The switch reads only bit i: a clear bit selects nothing, a set one selects table entry i. */
  lemma SwitchMatchesTable(m: bv32, i: nat)
    requires i < 32
    ensures SwitchCase(m & Bit(i)) == if HasBit(m, i) then LegacyEntry(i) else None
  {
    MaskedBit(m, i);
    if HasBit(m, i) {
      if i < 8 { SwitchOnBits0To7(i); }
      else if i < 16 { SwitchOnBits8To15(i); }
      else if i < 24 { SwitchOnBits16To23(i); }
      else { SwitchOnBits24To31(i); }
    }
  }

  /** The flags an optional switch outcome turns on. */
  function Selected(o: Option<Flag>): set<Flag>
  {
    if o.Some? then {o.value} else {}
  }

  /** Reading bit position n adds exactly what the switch selects for it. */
  lemma ConvertedStep(m: bv32, n: nat)
    requires n < 32
    ensures ConvertedUpTo(m, n + 1) == ConvertedUpTo(m, n) + Selected(SwitchCase(m & Bit(n)))
  {
    SwitchMatchesTable(m, n);
  }

  /** Before any bit is read, only the forced default is present. */
  lemma ConvertedNone(m: bv32)
    ensures ConvertedUpTo(m, 0) == {DLDISCOUNT}
  {
  }

  /** The contents of the v3 flag set whose set flags are exactly those of `s`. */
  function Image(s: set<Flag>): (bits: seq<bool>)
    ensures |bits| == NrFlags
    ensures forall f :: bits[Index(f)] <==> f in s
  {
    seq(NrFlags, i requires 0 <= i < NrFlags => FlagAt(i) in s)
  }

  /** Setting the slot of f in the image of s gives the image of s plus f. */
  lemma ImageSet(s: set<Flag>, f: Flag)
    ensures Image(s)[Index(f) := true] == Image(s + {f})
  {
    forall i | 0 <= i < NrFlags
      ensures Image(s)[Index(f) := true][i] == Image(s + {f})[i]
    {
      IndexOnto(i);
    }
  }

  /** A cleared set with only the default's slot set is the image of the default. */
  lemma ImageDefault(bits: seq<bool>)
    requires |bits| == NrFlags && forall i :: 0 <= i < NrFlags ==> !bits[i]
    ensures bits[Index(DLDISCOUNT) := true] == Image({DLDISCOUNT})
  {
    forall i | 0 <= i < NrFlags
      ensures bits[Index(DLDISCOUNT) := true][i] == Image({DLDISCOUNT})[i]
    {
      IndexOnto(i);
    }
  }

  /** Carry out a switch outcome: set the flag it names, if any. */
  method SetSelected(action: Option<Flag>, v3flags: array<bool>, ghost s: set<Flag>)
    requires v3flags[..] == Image(s)
    modifies v3flags
    ensures v3flags[..] == Image(s + Selected(action))
  {
    match action {
      case Some(f) =>
        ImageSet(s, f);
        v3flags[Index(f)] := true;
      case None =>
        assert s + {} == s;
    }
  }

  /**
   * One pass of the loop of convert_v2flags: mask bit position i and carry
   * out the switch case that matches.
   */
  method ApplyBit(bitmask: bv32, i: nat, v3flags: array<bool>)
    requires i < 32
    requires v3flags[..] == Image(ConvertedUpTo(bitmask, i))
    modifies v3flags
    ensures v3flags[..] == Image(ConvertedUpTo(bitmask, i + 1))
  {
    var bit := Bit(i);
    ConvertedStep(bitmask, i);
    SetSelected(SwitchCase(bitmask & bit), v3flags, ConvertedUpTo(bitmask, i));
  }

  /**
   * convert_v2flags: clear v3flags, force MKD_DLDISCOUNT on, then for each
   * bit position 0..31 carry out the switch case that the masked bit matches.
   */
  method ConvertV2Flags(bitmask: bv32, v3flags: array<bool>)
    requires v3flags.Length == NrFlags
    modifies v3flags
    ensures v3flags[..] == Image(Converted(bitmask))
  {
    Flags.InitFlags(v3flags);
    ImageDefault(v3flags[..]);
    v3flags[Index(DLDISCOUNT)] := true;
    ConvertedNone(bitmask);
    var i := 0;
    while i < 32
      invariant 0 <= i <= 32
      invariant v3flags[..] == Image(ConvertedUpTo(bitmask, i))
    {
      ApplyBit(bitmask, i, v3flags);
      i := i + 1;
    }
  }

  // ---------------------------------------------------------------------
  // Properties of the translation

  /** A flag is in the translation iff it is the default or some set bit maps to it. */
  lemma ConvertedMembers(m: bv32, f: Flag)
    ensures f in Converted(m) <==>
            f == DLDISCOUNT || exists i :: 0 <= i < 32 && HasBit(m, i) && LegacyEntry(i) == Some(f)
  {
    if f != DLDISCOUNT && f in Converted(m) {
      var i :| 0 <= i < 32 && HasBit(m, i) && LegacyEntry(i).Some? && LegacyEntry(i).value == f;
    }
  }

  /** No bit clears MKD_DLDISCOUNT: it is on for every input word. */
  lemma DlDiscountAlwaysOn(m: bv32)
    ensures DLDISCOUNT in Converted(m)
  {
  }

  /** Two words that agree on every mapped bit translate alike. */
  lemma {:induction false} ConvertedOnlyReadsMappedBits(m1: bv32, m2: bv32)
    requires forall i :: 0 <= i < 32 && LegacyEntry(i).Some? ==> HasBit(m1, i) == HasBit(m2, i)
    ensures Converted(m1) == Converted(m2)
  {
    forall f | f in Converted(m1) ensures f in Converted(m2) {
      ConvertedMembers(m1, f);
      ConvertedMembers(m2, f);
    }
    forall f | f in Converted(m2) ensures f in Converted(m1) {
      ConvertedMembers(m1, f);
      ConvertedMembers(m2, f);
    }
  }

  /** The empty word yields only the forced default. */
  lemma ConvertZero()
    ensures Converted(0) == {DLDISCOUNT}
  {
    forall f | f in Converted(0) ensures f == DLDISCOUNT {
      ConvertedMembers(0, f);
    }
  }

  /** A single legacy bit yields the default plus that bit's table entry. */
  lemma ConvertSingleBit(i: nat)
    requires i < 32
    ensures Converted(Bit(i)) == {DLDISCOUNT} + Selected(LegacyEntry(i))
  {
    assert HasBit(Bit(i), i);
    forall f | f in Converted(Bit(i)) ensures f in {DLDISCOUNT} + Selected(LegacyEntry(i)) {
      ConvertedMembers(Bit(i), f);
      if f != DLDISCOUNT {
        var j :| 0 <= j < 32 && HasBit(Bit(i), j) && LegacyEntry(j) == Some(f);
        OnlyOwnBit(i, j);
      }
    }
  }

  /** A single-bit word has no other bit set. */
  lemma OnlyOwnBit(i: nat, j: nat)
    requires i < 32 && j < 32
    ensures HasBit(Bit(i), j) <==> i == j
  {
  }

  /** Translation maps bitwise OR to union: it is monotone and compositional. */
  lemma {:induction false} ConvertUnion(m1: bv32, m2: bv32)
    ensures Converted(m1 | m2) == Converted(m1) + Converted(m2)
  {
    forall f | f in Converted(m1 | m2) ensures f in Converted(m1) + Converted(m2) {
      UnionSplits(m1, m2, f);
    }
    forall f | f in Converted(m1) + Converted(m2) ensures f in Converted(m1 | m2) {
      if f in Converted(m1) {
        UnionKeeps(m1, m2, f);
      } else {
        UnionKeeps(m2, m1, f);
        assert m2 | m1 == m1 | m2;
      }
    }
  }

  /** A flag of the translation of m1 | m2 comes from m1 or from m2. */
  lemma UnionSplits(m1: bv32, m2: bv32, f: Flag)
    requires f in Converted(m1 | m2)
    ensures f in Converted(m1) || f in Converted(m2)
  {
    if f != DLDISCOUNT {
      var i :| 0 <= i < 32 && HasBit(m1 | m2, i) && LegacyEntry(i).Some? && LegacyEntry(i).value == f;
      OrBit(m1, m2, i);
      if HasBit(m1, i) {
        assert f in ConvertedUpTo(m1, 32);
      } else {
        assert f in ConvertedUpTo(m2, 32);
      }
    }
  }

  /** A flag of the translation of m1 stays in that of m1 | m2. */
  lemma UnionKeeps(m1: bv32, m2: bv32, f: Flag)
    requires f in Converted(m1)
    ensures f in Converted(m1 | m2)
  {
    if f != DLDISCOUNT {
      var i :| 0 <= i < 32 && HasBit(m1, i) && LegacyEntry(i).Some? && LegacyEntry(i).value == f;
      OrBit(m1, m2, i);
      assert f in ConvertedUpTo(m1 | m2, 32);
    }
  }

  /** A bit is set in m1 | m2 iff it is set in m1 or in m2. */
  lemma OrBit(m1: bv32, m2: bv32, i: nat)
    requires i < 32
    ensures HasBit(m1 | m2, i) <==> HasBit(m1, i) || HasBit(m2, i)
  {
    var b := Bit(i);
    assert (m1 | m2) & b == (m1 & b) | (m2 & b);
  }

  /** Adding bits never removes a flag. */
  lemma ConvertMonotone(m1: bv32, m2: bv32)
    ensures Converted(m1) <= Converted(m1 | m2)
  {
    ConvertUnion(m1, m2);
  }

  /** MKD2_STRICT and MKD2_STRICT2 are aliases for MKD_STRICT. */
  lemma StrictAliases()
    ensures Converted(MKD2_STRICT) == {STRICT, DLDISCOUNT}
    ensures Converted(MKD2_STRICT2) == {STRICT, DLDISCOUNT}
    ensures Converted(MKD2_STRICT | MKD2_STRICT2) == {STRICT, DLDISCOUNT}
  {
    assert MKD2_STRICT == Bit(4) && MKD2_STRICT2 == Bit(9);
    ConvertSingleBit(4);
    ConvertSingleBit(9);
    ConvertUnion(MKD2_STRICT, MKD2_STRICT2);
  }

  /** MKD2_NODLIST and the unnamed bit 0x20000000 have no effect. */
  lemma IgnoredBits(m: bv32)
    ensures Converted(m) == Converted(m & !(MKD2_NODLIST | 0x20000000))
  {
    var m' := m & !(MKD2_NODLIST | 0x20000000);
    forall i | 0 <= i < 32 && LegacyEntry(i).Some? ensures HasBit(m, i) == HasBit(m', i) {
      ClearedBits(m, i);
    }
    ConvertedOnlyReadsMappedBits(m, m');
  }

  /** Clearing bits 20 and 29 leaves every other bit as it was. */
  lemma ClearedBits(m: bv32, i: nat)
    requires i < 32 && i != 20 && i != 29
    ensures HasBit(m & !(MKD2_NODLIST | 0x20000000), i) == HasBit(m, i)
  {
    ClearedMask(m, i as bv5);
  }

  /** The mask !(bit 20 | bit 29) keeps every other single bit. */
  lemma ClearedMask(m: bv32, x: bv5)
    requires x != 20 && x != 29
    ensures (m & !(MKD2_NODLIST | 0x20000000)) & (1 << x) == m & (1 << x)
  {
  }

  /**
   * MKD2_NODLDISCOUNT sets MKD_DLDISCOUNT, which is already on, so the bit
   * has no visible effect.
   */
  lemma NoDlDiscountBitIsInert(m: bv32)
    ensures Converted(MKD2_NODLDISCOUNT) == {DLDISCOUNT}
    ensures Converted(m | MKD2_NODLDISCOUNT) == Converted(m)
  {
    assert MKD2_NODLDISCOUNT == Bit(23);
    ConvertSingleBit(23);
    ConvertUnion(m, MKD2_NODLDISCOUNT);
  }

  /** MKD_NORMAL_LISTITEM and MKD_ALT_AS_TITLE have no v2 bit: they are never set. */
  lemma UnreachableFlags(m: bv32)
    ensures NORMAL_LISTITEM !in Converted(m)
    ensures ALT_AS_TITLE !in Converted(m)
  {
    ConvertedMembers(m, NORMAL_LISTITEM);
    ConvertedMembers(m, ALT_AS_TITLE);
  }

  /** Exactly bits 20 and 29 have no switch case. */
  lemma UnmappedPositions(i: nat)
    requires i < 32
    ensures LegacyEntry(i).None? <==> i == 20 || i == 29
  {
  }

  /** Exactly bits 4 and 9 select MKD_STRICT. */
  lemma StrictPositions(i: nat)
    requires i < 32
    ensures LegacyEntry(i) == Some(STRICT) <==> i == 4 || i == 9
  {
  }
}

