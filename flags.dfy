/**
 * The v3 flag set and its reporter (flags.c).
 *
 * A flag set (mkd_flag_t) is an array of NrFlags booleans indexed by the slot
 * of an identifier; a NULL pointer to one is the null array.
 */
module Flags {
  import opened FlagIds

  /** A non-null flag set has one slot per identifier. */
  predicate Sized(p: array?<bool>)
  {
    p != null ==> p.Length == NrFlags
  }

  /** mkd_flag_isset: false for a NULL set, otherwise the stored bit. */
  function FlagIsSet(flags: array?<bool>, i: nat): (r: bool)
    reads flags
    requires flags != null ==> i < flags.Length
    ensures flags == null ==> !r
    ensures flags != null ==> (r <==> flags[i])
  {
    flags != null && flags[i]
  }

  /** mkd_is_any_flag_set: true iff the set is non-NULL and some slot is set. */
  method IsAnyFlagSet(flags: array?<bool>) returns (r: bool)
    requires Sized(flags)
    ensures r <==> flags != null && exists i :: 0 <= i < NrFlags && flags[i]
  {
    if flags == null {
      return false;
    }
    var i := 0;
    while i < NrFlags
      invariant 0 <= i <= NrFlags
      invariant forall j :: 0 <= j < i ==> !flags[j]
    {
      if flags[i] {
        return true;
      }
      i := i + 1;
    }
    return false;
  }

  /** mkd_init_flags: clear every slot (the memset to zero). */
  method InitFlags(p: array<bool>)
    modifies p
    ensures forall i :: 0 <= i < p.Length ==> !p[i]
  {
    forall i | 0 <= i < p.Length {
      p[i] := false;
    }
  }

  /**
   * mkd_flags: allocate and clear a flag set. `mallocOk` is the outcome of
   * malloc, which the model cannot see; on failure the result is NULL.
   */
  method NewFlags(mallocOk: bool) returns (p: array?<bool>)
    ensures p == null <==> !mallocOk
    ensures p != null ==> fresh(p) && p.Length == NrFlags
    ensures p != null ==> forall i :: 0 <= i < NrFlags ==> !p[i]
  {
    if !mallocOk {
      return null;
    }
    p := new bool[NrFlags];
    InitFlags(p);
  }

  /**
   * mkd_copy_flags: a fresh set equal to `original` slot by slot, or all
   * clear when `original` is NULL; NULL only when allocation fails.
   */
  method CopyFlags(original: array?<bool>, mallocOk: bool) returns (copy: array?<bool>)
    requires Sized(original)
    ensures copy == null <==> !mallocOk
    ensures copy != null ==> fresh(copy) && copy.Length == NrFlags
    ensures copy != null && original != null ==> copy[..] == original[..]
    ensures copy != null && original == null ==> forall i :: 0 <= i < NrFlags ==> !copy[i]
  {
    copy := NewFlags(mallocOk);
    if original != null && copy != null {
      forall i | 0 <= i < NrFlags {
        copy[i] := original[i];
      }
    }
  }

  /** The slot-wise union of two flag sets of equal size. */
  function Union(to: seq<bool>, from: seq<bool>): (u: seq<bool>)
    requires |to| == |from|
    ensures |u| == |to|
  {
    seq(|to|, i requires 0 <= i < |to| => to[i] || from[i])
  }

  /** The contents of a flag set that may be NULL, read as all clear when it is. */
  function Bits(p: array?<bool>): (s: seq<bool>)
    reads p
    requires Sized(p)
    ensures |s| == NrFlags
    ensures p == null ==> forall i :: 0 <= i < NrFlags ==> !s[i]
  {
    if p == null then seq(NrFlags, i => false) else p[..]
  }

  /**
   * mkd_set_flag_num, whose definition is not part of this model: a
   * primitive write of slot i, and no write at all through a NULL set.
   */
  method SetFlagNum(p: array?<bool>, i: nat)
    requires Sized(p) && i < NrFlags
    modifies p
    ensures p != null ==> p[..] == old(p[..])[i := true]
  {
    if p != null {
      p[i] := true;
    }
  }

  /** mkd_copy_flags_inplace: set in `to` every slot set in `from`. */
  method CopyFlagsInplace(to: array?<bool>, from: array?<bool>)
    requires Sized(to) && Sized(from)
    modifies to
    ensures to != null ==> to[..] == Union(old(to[..]), old(Bits(from)))
  {
    var i := 0;
    while i < NrFlags
      invariant 0 <= i <= NrFlags
      invariant to != null ==> forall j :: 0 <= j < NrFlags ==>
        to[j] == (old(to[j]) || (j < i && old(Bits(from))[j]))
    {
      if FlagIsSet(from, i) {
        assert old(Bits(from))[i];
        SetFlagNum(to, i);
      }
      i := i + 1;
    }
  }

  /** Merging never clears a slot and sets exactly the slots set in either operand. */
  lemma UnionNeverClears(to: seq<bool>, from: seq<bool>, i: nat)
    requires |to| == |from| && i < |to|
    ensures Union(to, from)[i] <==> to[i] || from[i]
    ensures to[i] ==> Union(to, from)[i]
  {
  }

  /** Merging the same set twice is the same as merging it once. */
  lemma UnionIdempotent(to: seq<bool>, from: seq<bool>)
    requires |to| == |from|
    ensures Union(Union(to, from), from) == Union(to, from)
  {
  }

  /** Merging a NULL (all clear) set changes nothing. */
  lemma UnionWithNothing(to: seq<bool>)
    requires |to| == NrFlags
    ensures Union(to, Bits(null)) == to
  {
  }

  /** mkd_free_flags: releasing memory has no counterpart in the model's heap. */
  method FreeFlags(rip: array?<bool>)
  {
  }

  /**
   * A write to a copy never reaches the original: the copy is a distinct
   * set. The method may not modify `original` (it has no modifies clause),
   * so the original keeps its contents while the copy changes.
   */
  method WriteToCopy(original: array<bool>, i: nat, mallocOk: bool) returns (copy: array?<bool>)
    requires original.Length == NrFlags && i < NrFlags
    ensures copy != null ==> copy != original && copy.Length == NrFlags
    ensures copy != null ==> copy[i] == !original[i]
    ensures copy != null ==> forall j :: 0 <= j < NrFlags && j != i ==> copy[j] == original[j]
  {
    copy := CopyFlags(original, mallocOk);
    if copy != null {
      copy[i] := !copy[i];
    }
  }

  // ---------------------------------------------------------------------
  // The reporter

  /**
   * An entry of the flag name table. A name that starts with `!` marks a
   * flag whose stored bit means that the feature is disabled.
   */
  datatype FlagName = FlagName(flag: Flag, name: string)

  /** The name table `flagnames`, in report order: one entry per identifier. */
  function FlagNames(): (t: seq<FlagName>)
    ensures |t| == NrFlags
  {
    [
      FlagName(NOLINKS, "!LINKS"),
      FlagName(NOIMAGE, "!IMAGE"),
      FlagName(NOPANTS, "!PANTS"),
      FlagName(NOHTML, "!HTML"),
      FlagName(TAGTEXT, "TAGTEXT"),
      FlagName(NO_EXT, "!EXT"),
      FlagName(CDATA, "CDATA"),
      FlagName(NOSUPERSCRIPT, "!SUPERSCRIPT"),
      FlagName(STRICT, "STRICT"),
      FlagName(NOTABLES, "!TABLES"),
      FlagName(NOSTRIKETHROUGH, "!STRIKETHROUGH"),
      FlagName(TOC, "TOC"),
      FlagName(ONE_COMPAT, "MKD_1_COMPAT"),
      FlagName(AUTOLINK, "AUTOLINK"),
      FlagName(SAFELINK, "SAFELINK"),
      FlagName(NOHEADER, "!HEADER"),
      FlagName(TABSTOP, "TABSTOP"),
      FlagName(NODIVQUOTE, "!DIVQUOTE"),
      FlagName(NOALPHALIST, "!ALPHALIST"),
      FlagName(EXTRA_FOOTNOTE, "FOOTNOTE"),
      FlagName(NOSTYLE, "!STYLE"),
      FlagName(DLDISCOUNT, "DLDISCOUNT"),
      FlagName(DLEXTRA, "DLEXTRA"),
      FlagName(FENCEDCODE, "FENCEDCODE"),
      FlagName(IDANCHOR, "IDANCHOR"),
      FlagName(GITHUBTAGS, "GITHUBTAGS"),
      FlagName(NORMAL_LISTITEM, "NORMAL_LISTITEM"),
      FlagName(URLENCODEDANCHOR, "URLENCODEDANCHOR"),
      FlagName(LATEX, "LATEX"),
      FlagName(EXPLICITLIST, "EXPLICITLIST"),
      FlagName(ALT_AS_TITLE, "ALT_AS_TITLE")
    ]
  }

  const TableOpen: string := "<table class=\"mkd_flags_are\">\n"
  const TableClose: string := "</table>\n"
  const RowOpen: string := " <tr>"
  const RowClose: string := "</tr>\n"

  /** Whether a table name carries the inverted-meaning marker. */
  predicate Negated(name: string)
  {
    |name| > 0 && name[0] == '!'
  }

  /** The name as printed: without its marker. */
  function Shown(name: string): (r: string)
  {
    if Negated(name) then name[1..] else name
  }

  /** Putting the marker back in front of the printed name gives the table name. */
  lemma ShownRestores(name: string)
    ensures name == (if Negated(name) then "!" else "") + Shown(name)
  {
  }

  /** Whether the feature an entry names is on, given the stored bit. */
  predicate Enabled(name: string, stored: bool)
    ensures Enabled(name, stored) <==> stored != Negated(name)
  {
    if Negated(name) then !stored else stored
  }

  /** A plain-mode entry: a space, `!` when the feature is off, the name. */
  function PlainEntry(name: string, stored: bool): string
  {
    " " + (if Enabled(name, stored) then "" else "!") + Shown(name)
  }

  /** An HTML table cell, struck through when the feature is off. */
  function Cell(name: string, stored: bool): string
  {
    var on := Enabled(name, stored);
    "<td>" + (if on then "" else "<s>") + Shown(name) + (if on then "" else "</s>") + "</td>"
  }

  /** Whether n is even, one step at a time: 0 is even, and n + 1 is even iff n is not. */
  predicate Even(n: nat)
  {
    if n == 0 then true else !Even(n - 1)
  }

  /** Even agrees with the remainder modulo 2. */
  lemma {:induction false} EvenIsParity(n: nat)
    ensures Even(n) <==> n % 2 == 0
  {
    if n > 0 {
      EvenIsParity(n - 1);
    }
  }

  /** HTML entry k: entries at even positions open a row, those at odd positions close it. */
  function HtmlEntry(name: string, stored: bool, k: nat): string
  {
    (if Even(k) then RowOpen else "") + Cell(name, stored) + (if Even(k) then "" else RowClose)
  }

  function Entry(name: string, stored: bool, html: bool, k: nat): string
  {
    if html then HtmlEntry(name, stored, k) else PlainEntry(name, stored)
  }

  /** The entries for the first n table rows, in table order. */
  function Body(table: seq<FlagName>, stored: seq<bool>, html: bool, n: nat): string
    requires n <= |table| == |stored|
  {
    if n == 0 then ""
    else Body(table, stored, html, n - 1) + Entry(table[n - 1].name, stored[n - 1], html, n - 1)
  }

  /**
   * The text __mkd_flags_are writes for a table and the stored bits of its
   * entries. In HTML mode the entries sit inside a table, and one more
   * `</tr>` follows them when the entry count is even.
   */
  function Report(table: seq<FlagName>, stored: seq<bool>, html: bool): string
    requires |table| == |stored|
  {
    if html then
      TableOpen + Body(table, stored, true, |table|)
      + (if Even(|table|) then RowClose else "") + TableClose
    else
      Body(table, stored, false, |table|)
  }

  /** The stored bit of each entry of `table`, as mkd_flag_isset reads it. */
  function StoredOf(table: seq<FlagName>, flags: array?<bool>): (s: seq<bool>)
    reads flags
    requires Sized(flags)
    ensures |s| == |table|
    ensures forall k :: 0 <= k < |table| ==> s[k] == FlagIsSet(flags, Index(table[k].flag))
  {
    var bits := Bits(flags);
    seq(|table|, k requires 0 <= k < |table| => bits[Index(table[k].flag)])
  }

  /** The stored bit of each entry of the name table. */
  function Stored(flags: array?<bool>): (s: seq<bool>)
    reads flags
    requires Sized(flags)
    ensures |s| == |FlagNames()|
  {
    StoredOf(FlagNames(), flags)
  }

  /** Strip the marker from a table name; the feature is on when the bit says so, after inversion for a marked name. */
  method Unmark(marked: string, isSet: bool) returns (name: string, on: bool)
    ensures name == Shown(marked) && on == Enabled(marked, isSet)
  {
    on := isSet;
    name := marked;
    var negated := |name| > 0 && name[0] == '!';
    if negated {
      name := name[1..];
      on := !on;
    }
  }

  /**
   * One pass of the loop of __mkd_flags_are: write table entry `e`, whose
   * stored bit is `isSet`, after `out`; `even` says whether the entry opens
   * a row (it is the k-th entry, counting from 0).
   */
  method WriteEntry(out: string, e: FlagName, isSet: bool, html: bool, even: bool, ghost k: nat)
    returns (out': string)
    requires even == Even(k)
    ensures out' == out + Entry(e.name, isSet, html, k)
  {
    var name, on := Unmark(e.name, isSet);
    out' := out;
    if html {
      if even {
        out' := out' + RowOpen;
      }
      out' := out' + "<td>";
    } else {
      out' := out' + " ";
    }
    ghost var marker := out';
    if !on {
      out' := out' + (if html then "<s>" else "!");
    }
    out' := out' + name;
    MarkedName(marker, out', name, on, if html then "<s>" else "!");
    if html {
      ghost var struck := out';
      if !on {
        out' := out' + "</s>";
      }
      out' := out' + "</td>";
      if !even {
        out' := out' + RowClose;
      }
      HtmlEntryWrites(out, marker, struck, out', e.name, isSet, name, on, even, k);
    } else {
      PlainEntryWrites(out, marker, out', e.name, isSet, name, on);
    }
  }

  /**
   * The optional marker and the name, written after `before`. A hint for
   * WriteEntry: it names the one regrouping of the writes that its proof needs.
   */
  lemma MarkedName(before: string, after: string, name: string, on: bool, mark: string)
    requires after == (if on then before else before + mark) + name
    ensures after == before + (if on then "" else mark) + name
  {
    if on {
      assert before + "" == before;
    }
  }

  /** The writes of one plain-mode entry spell PlainEntry. */
  lemma PlainEntryWrites(out: string, marker: string, after: string,
                         marked: string, isSet: bool, name: string, on: bool)
    requires marker == out + " "
    requires after == marker + (if on then "" else "!") + name
    requires name == Shown(marked) && on == Enabled(marked, isSet)
    ensures after == out + PlainEntry(marked, isSet)
  {
    var m := if on then "" else "!";
    calc {
      after;
      (out + " ") + m + name;
      out + (" " + m + name);
    }
  }

  /** The writes of one HTML-mode entry spell HtmlEntry. */
  lemma HtmlEntryWrites(out: string, marker: string, struck: string, after: string,
                        marked: string, isSet: bool, name: string, on: bool, even: bool, k: nat)
    requires even == Even(k)
    requires marker == (if even then out + RowOpen else out) + "<td>"
    requires struck == marker + (if on then "" else "<s>") + name
    requires after == (if even then (if on then struck else struck + "</s>") + "</td>"
                       else (if on then struck else struck + "</s>") + "</td>" + RowClose)
    requires name == Shown(marked) && on == Enabled(marked, isSet)
    ensures after == out + HtmlEntry(marked, isSet, k)
  {
    var open := if even then RowOpen else "";
    var s := if on then "" else "<s>";
    var t := if on then "" else "</s>";
    var close := if even then "" else RowClose;
    var cell := "<td>" + s + name + t + "</td>";
    assert marker == out + open + "<td>" by {
      if !even {
        assert out + "" == out;
      }
    }
    assert after == struck + t + "</td>" + close by {
      if on {
        assert struck + "" == struck;
      }
      if even {
        assert struck + t + "</td>" + "" == struck + t + "</td>";
      }
    }
    Associative5(out + open, "<td>", s, name, t, "</td>");
    Associative(out, open, cell);
    Associative(out, open + cell, close);
  }

  /** Five pieces written one after the other form one string (a regrouping hint for the writers). */
  lemma Associative5(a: string, b: string, c: string, d: string, e: string, f: string)
    ensures a + b + c + d + e + f == a + (b + c + d + e + f)
  {
  }

  /** Writing to a stream piece by piece: concatenation is associative (a regrouping hint for the writers). */
  lemma Associative(a: string, b: string, c: string)
    ensures (a + b) + c == a + (b + c)
  {
  }

  /**
   * The loop of __mkd_flags_are over a name table: the text of every entry;
   * `even` ends up telling whether the entry count is even.
   */
  method WriteEntries(table: seq<FlagName>, flags: array?<bool>, html: bool)
    returns (out: string, even: bool)
    requires Sized(flags)
    ensures out == Body(table, StoredOf(table, flags), html, |table|)
    ensures even == Even(|table|)
  {
    ghost var stored := StoredOf(table, flags);
    out := "";
    even := true;
    var i := 0;
    while i < |table|
      invariant 0 <= i <= |table|
      invariant even == Even(i)
      invariant out == Body(table, stored, html, i)
    {
      out := WriteNext(out, table, flags, html, even, i);
      even := !even;
      i := i + 1;
    }
  }

  /** The body of that loop for entry i: it extends the output by one entry. */
  method WriteNext(out: string, table: seq<FlagName>, flags: array?<bool>,
                   html: bool, even: bool, i: nat)
    returns (out': string)
    requires Sized(flags) && i < |table|
    requires even == Even(i)
    requires out == Body(table, StoredOf(table, flags), html, i)
    ensures out' == Body(table, StoredOf(table, flags), html, i + 1)
  {
    ghost var stored := StoredOf(table, flags);
    var isSet := FlagIsSet(flags, Index(table[i].flag));
    assert isSet == stored[i];
    out' := WriteEntry(out, table[i], isSet, html, even, i);
  }

  /** __mkd_flags_are over a name table: the entries, inside a table in HTML mode. */
  method WriteReport(table: seq<FlagName>, flags: array?<bool>, html: bool) returns (out: string)
    requires Sized(flags)
    ensures out == Report(table, StoredOf(table, flags), html)
  {
    var even;
    if html {
      out, even := WriteEntries(table, flags, html);
      out := TableOpen + out;
      if even {
        out := out + RowClose;
      } else {
        assert out + "" == out;
      }
      out := out + TableClose;
    } else {
      out, even := WriteEntries(table, flags, html);
    }
  }

  /** __mkd_flags_are: render a flag set, as a table when `html` holds. */
  method FlagsAre(flags: array?<bool>, html: bool) returns (out: string)
    requires Sized(flags)
    ensures out == Report(FlagNames(), Stored(flags), html)
  {
    out := WriteReport(FlagNames(), flags, html);
  }

  /** A document (MMIOT); of its fields the model keeps only the flag set. */
  class Mmiot {
    var flags: array<bool>

    constructor (initial: seq<bool>)
      requires |initial| == NrFlags
      ensures flags.Length == NrFlags && flags[..] == initial
    {
      flags := new bool[NrFlags](i requires 0 <= i < NrFlags => initial[i]);
    }
  }

  /** mkd_mmiot_flags: the report of a document's flags; nothing for a NULL document. */
  method MmiotFlags(m: Mmiot?, html: bool) returns (out: string)
    requires m != null ==> m.flags.Length == NrFlags
    ensures m == null ==> out == ""
    ensures m != null ==> out == Report(FlagNames(), Stored(m.flags), html)
  {
    if m == null {
      return "";
    }
    out := FlagsAre(m.flags, html);
  }

  // ---------------------------------------------------------------------
  // The HTML layout: two cells per row

  /**
   * The intended table body for the first n entries: rows of two cells, the
   * last row holding one cell when n is odd, every row closed.
   */
  function Rows(table: seq<FlagName>, stored: seq<bool>, n: nat): string
    requires n <= |table| == |stored|
  {
    if n == 0 then ""
    else if n == 1 || !Even(n) then
      Rows(table, stored, n - 1) + RowOpen + Cell(table[n - 1].name, stored[n - 1]) + RowClose
    else
      Rows(table, stored, n - 2) + RowOpen + Cell(table[n - 2].name, stored[n - 2])
      + Cell(table[n - 1].name, stored[n - 1]) + RowClose
  }

  /**
   * The HTML entries lay out as the rows of Rows: after an even number of
   * entries every row is closed; after an odd number the last row lacks
   * only its `</tr>`.
   */
  lemma {:induction false} BodyIsRows(table: seq<FlagName>, stored: seq<bool>, n: nat)
    requires n <= |table| == |stored|
    ensures Even(n) ==> Body(table, stored, true, n) == Rows(table, stored, n)
    ensures !Even(n) ==> Body(table, stored, true, n) + RowClose == Rows(table, stored, n)
  {
    if n == 0 {
    } else if !Even(n) {
      BodyIsRows(table, stored, n - 1);
      RowsOdd(table, stored, n);
    } else {
      EvenTwoBack(n);
      BodyIsRows(table, stored, n - 2);
      RowsEven(table, stored, n);
    }
  }

  /** A positive even count is at least 2, and the count two below it is even too. */
  lemma EvenTwoBack(n: nat)
    requires 0 < n && Even(n)
    ensures 2 <= n && Even(n - 2)
  {
    assert n != 1 && !Even(n - 1);
  }

  /** The step of BodyIsRows to an odd count. */
  lemma RowsOdd(table: seq<FlagName>, stored: seq<bool>, n: nat)
    requires 0 < n <= |table| == |stored| && !Even(n)
    requires Body(table, stored, true, n - 1) == Rows(table, stored, n - 1)
    ensures Body(table, stored, true, n) + RowClose == Rows(table, stored, n)
  {
    RowOfOne(Body(table, stored, true, n - 1), Rows(table, stored, n - 1),
             Cell(table[n - 1].name, stored[n - 1]));
  }

  /** The step of BodyIsRows to an even count. */
  lemma RowsEven(table: seq<FlagName>, stored: seq<bool>, n: nat)
    requires 2 <= n <= |table| == |stored| && Even(n)
    requires Body(table, stored, true, n - 2) == Rows(table, stored, n - 2)
    ensures Body(table, stored, true, n) == Rows(table, stored, n)
  {
    assert Body(table, stored, true, n) ==
      Body(table, stored, true, n - 2)
      + HtmlEntry(table[n - 2].name, stored[n - 2], n - 2)
      + HtmlEntry(table[n - 1].name, stored[n - 1], n - 1);
    RowOfTwo(Rows(table, stored, n - 2),
             Cell(table[n - 2].name, stored[n - 2]), Cell(table[n - 1].name, stored[n - 1]));
  }

  /** An entry at an even position, followed by `</tr>`, is a row of one cell (a regrouping hint for RowsOdd). */
  lemma RowOfOne(body: string, rows: string, c: string)
    requires body == rows
    ensures body + (RowOpen + c + "") + RowClose == rows + RowOpen + c + RowClose
  {
    assert RowOpen + c + "" == RowOpen + c;
    Associative(rows, RowOpen, c);
  }

  /** Entries at an even and the following odd position form a row of two cells (a regrouping hint for RowsEven). */
  lemma RowOfTwo(rows: string, a: string, b: string)
    ensures rows + (RowOpen + a + "") + ("" + b + RowClose) == rows + RowOpen + a + b + RowClose
  {
    assert RowOpen + a + "" == RowOpen + a;
    assert "" + b + RowClose == b + RowClose;
    Associative(rows, RowOpen, a);
    Associative(rows + RowOpen + a, b, RowClose);
  }

  /**
   * The shipped behaviour of __mkd_flags_are in HTML mode with an odd entry
   * count (the shipped table has 31 entries): the report is the intended
   * layout with the `</tr>` of the last row missing.
   */
  lemma ReportLeavesLastRowOpen(table: seq<FlagName>, stored: seq<bool>)
    requires |table| == |stored| && !Even(|table|)
    ensures Report(table, stored, true) == TableOpen + Body(table, stored, true, |table|) + TableClose
    ensures TableOpen + Body(table, stored, true, |table|) + RowClose == TableOpen + Rows(table, stored, |table|)
  {
    BodyIsRows(table, stored, |table|);
    var body := TableOpen + Body(table, stored, true, |table|);
    assert body + "" == body;
    Associative(TableOpen, Body(table, stored, true, |table|), RowClose);
  }

  /**
   * The shipped behaviour of __mkd_flags_are in HTML mode with an even entry
   * count: a stray `</tr>` follows the closed rows.
   */
  lemma ReportClosesRowTwice(table: seq<FlagName>, stored: seq<bool>)
    requires |table| == |stored| && Even(|table|)
    ensures Report(table, stored, true) == TableOpen + Rows(table, stored, |table|) + RowClose + TableClose
  {
    BodyIsRows(table, stored, |table|);
  }

  /**
   * The report with the row closing corrected: `</tr>` after the loop
   * exactly when the entry count is odd, that is, when a row is still open.
   */
  function FixedReport(table: seq<FlagName>, stored: seq<bool>, html: bool): string
    requires |table| == |stored|
  {
    if html then
      TableOpen + Body(table, stored, true, |table|)
      + (if Even(|table|) then "" else RowClose) + TableClose
    else
      Body(table, stored, false, |table|)
  }

  /** The corrected report is the intended layout for every entry count. */
  lemma FixedReportIsRows(table: seq<FlagName>, stored: seq<bool>)
    requires |table| == |stored|
    ensures FixedReport(table, stored, true) == TableOpen + Rows(table, stored, |table|) + TableClose
    ensures FixedReport(table, stored, false) == Report(table, stored, false)
  {
    BodyIsRows(table, stored, |table|);
    var body := Body(table, stored, true, |table|);
    if Even(|table|) {
      assert TableOpen + body + "" == TableOpen + body;
    } else {
      Associative(TableOpen, body, RowClose);
    }
  }

  /**
   * The corrected loop end of __mkd_flags_are (`if ( !even )` in place of
   * `if ( even )`).
   */
  method WriteFixedReport(table: seq<FlagName>, flags: array?<bool>, html: bool) returns (out: string)
    requires Sized(flags)
    ensures out == FixedReport(table, StoredOf(table, flags), html)
  {
    var even;
    if html {
      out, even := WriteEntries(table, flags, html);
      out := TableOpen + out;
      if !even {
        out := out + RowClose;
      } else {
        assert out + "" == out;
      }
      out := out + TableClose;
    } else {
      out, even := WriteEntries(table, flags, html);
    }
  }

  /** The shipped name table has an odd number of entries. */
  lemma ShippedTableIsOdd()
    ensures |FlagNames()| == 31 && !Even(|FlagNames()|)
  {
    EvenIsParity(|FlagNames()|);
  }

  /**
   * For every flag set, the HTML report of the shipped table leaves its last
   * row (the single cell ALT_AS_TITLE) open: no `</tr>` before `</table>`.
   */
  lemma ShippedReportLeavesLastRowOpen(flags: array?<bool>)
    requires Sized(flags)
    ensures Report(FlagNames(), Stored(flags), true)
      == TableOpen + Body(FlagNames(), Stored(flags), true, |FlagNames()|) + TableClose
    ensures Report(FlagNames(), Stored(flags), true) != FixedReport(FlagNames(), Stored(flags), true)
  {
    ShippedTableIsOdd();
    var stored := Stored(flags);
    ReportLeavesLastRowOpen(FlagNames(), stored);
    var body := TableOpen + Body(FlagNames(), stored, true, |FlagNames()|);
    assert |Report(FlagNames(), stored, true)| < |FixedReport(FlagNames(), stored, true)| by {
      assert |body + RowClose + TableClose| == |body| + |RowClose| + |TableClose|;
    }
  }

  // ---------------------------------------------------------------------
  // What the report says about each entry

  /** The output so far is a prefix of the output after more entries: entries come in table order. */
  lemma {:induction false} BodyGrows(table: seq<FlagName>, stored: seq<bool>, html: bool, m: nat, n: nat)
    requires m <= n <= |table| == |stored|
    ensures Body(table, stored, html, m) <= Body(table, stored, html, n)
    decreases n - m
  {
    if m < n {
      BodyGrows(table, stored, html, m, n - 1);
      var b := Body(table, stored, html, n - 1);
      var e := Entry(table[n - 1].name, stored[n - 1], html, n - 1);
      assert (b + e)[..|b|] == b;
    }
  }

  /** How often character c occurs in s. */
  function Count(c: char, s: string): nat
  {
    if |s| == 0 then 0 else (if s[0] == c then 1 else 0) + Count(c, s[1..])
  }

  lemma {:induction false} CountAppend(c: char, a: string, b: string)
    ensures Count(c, a + b) == Count(c, a) + Count(c, b)
  {
    if |a| == 0 {
      assert a + b == b;
    } else {
      assert (a + b)[1..] == a[1..] + b;
      CountAppend(c, a[1..], b);
    }
  }

  /** A printed name that is free of the decoration characters `!` and `<`. */
  predicate Plain(name: string)
  {
    forall i :: 0 <= i < |Shown(name)| ==> Shown(name)[i] != '!' && Shown(name)[i] != '<'
  }

  lemma {:induction false} CountAbsent(c: char, s: string)
    requires forall i :: 0 <= i < |s| ==> s[i] != c
    ensures Count(c, s) == 0
  {
    if |s| > 0 {
      CountAbsent(c, s[1..]);
    }
  }

  /** How many of the first n entries are disabled. */
  function Disabled(table: seq<FlagName>, stored: seq<bool>, n: nat): nat
    requires n <= |table| == |stored|
  {
    if n == 0 then 0
    else Disabled(table, stored, n - 1) + (if Enabled(table[n - 1].name, stored[n - 1]) then 0 else 1)
  }

  /**
   * A plain-mode entry begins with a space and carries `!` right after it
   * exactly when its feature is off.
   */
  lemma PlainEntryMarksDisabled(name: string, stored: bool)
    requires Plain(name) && |Shown(name)| > 0
    ensures PlainEntry(name, stored)[0] == ' '
    ensures PlainEntry(name, stored)[1] == '!' <==> !Enabled(name, stored)
  {
  }

  /** An HTML cell is struck through (`<s>` after `<td>`) exactly when its feature is off. */
  lemma CellMarksDisabled(name: string, stored: bool)
    requires Plain(name) && |Shown(name)| > 0
    ensures Cell(name, stored)[..4] == "<td>"
    ensures Cell(name, stored)[4] == '<' <==> !Enabled(name, stored)
    ensures !Enabled(name, stored) ==> Cell(name, stored)[4..7] == "<s>"
  {
  }

  /** One plain-mode entry holds one `!` if disabled, none otherwise, and no `<`. */
  lemma PlainEntryCounts(name: string, stored: bool)
    requires Plain(name)
    ensures Count('!', PlainEntry(name, stored)) == (if Enabled(name, stored) then 0 else 1)
    ensures Count('<', PlainEntry(name, stored)) == 0
  {
    var m := if Enabled(name, stored) then "" else "!";
    CountAppend('!', " " + m, Shown(name));
    CountAppend('!', " ", m);
    CountAbsent('!', Shown(name));
    CountAppend('<', " " + m, Shown(name));
    CountAppend('<', " ", m);
    CountAbsent('<', Shown(name));
  }

  /**
   * In plain mode the `!` marks count the disabled entries, and no table
   * markup appears.
   */
  lemma {:induction false} PlainBodyCounts(table: seq<FlagName>, stored: seq<bool>, n: nat)
    requires n <= |table| == |stored|
    requires forall k :: 0 <= k < |table| ==> Plain(table[k].name)
    ensures Count('!', Body(table, stored, false, n)) == Disabled(table, stored, n)
    ensures Count('<', Body(table, stored, false, n)) == 0
  {
    if n > 0 {
      PlainBodyCounts(table, stored, n - 1);
      var b := Body(table, stored, false, n - 1);
      var e := PlainEntry(table[n - 1].name, stored[n - 1]);
      PlainEntryCounts(table[n - 1].name, stored[n - 1]);
      CountAppend('!', b, e);
      CountAppend('<', b, e);
    }
  }

  /** In HTML mode the report is framed by the table tags. */
  lemma HtmlFrame(table: seq<FlagName>, stored: seq<bool>)
    requires |table| == |stored|
    ensures TableOpen <= Report(table, stored, true)
    ensures |TableClose| <= |Report(table, stored, true)|
    ensures Report(table, stored, true)[|Report(table, stored, true)| - |TableClose|..] == TableClose
  {
    var r := Report(table, stored, true);
    var inner := TableOpen + Body(table, stored, true, |table|) + (if Even(|table|) then RowClose else "");
    assert r == inner + TableClose;
    assert r[..|TableOpen|] == TableOpen;
  }

  /** A name that prints as `shown`, a non-empty word free of `!` and `<`, is plain. */
  lemma PlainWord(name: string, shown: string)
    requires Shown(name) == shown && |shown| > 0
    requires forall i :: 0 <= i < |shown| ==> shown[i] != '!' && shown[i] != '<'
    ensures Plain(name) && |Shown(name)| > 0
  {
  }

  /** Every name of the shipped table prints as a non-empty word free of `!` and `<`. */
  lemma ShippedNamesArePlain()
    ensures forall k :: 0 <= k < |FlagNames()| ==> Plain(FlagNames()[k].name) && |Shown(FlagNames()[k].name)| > 0
  {
    forall k | 0 <= k < |FlagNames()|
      ensures Plain(FlagNames()[k].name) && |Shown(FlagNames()[k].name)| > 0
    {
      if k < 2 { ShippedNamesFrom0(k); }
      else if k < 4 { ShippedNamesFrom2(k); }
      else if k < 6 { ShippedNamesFrom4(k); }
      else if k < 8 { ShippedNamesFrom6(k); }
      else if k < 10 { ShippedNamesFrom8(k); }
      else if k < 12 { ShippedNamesFrom10(k); }
      else if k < 14 { ShippedNamesFrom12(k); }
      else if k < 16 { ShippedNamesFrom14(k); }
      else if k < 18 { ShippedNamesFrom16(k); }
      else if k < 20 { ShippedNamesFrom18(k); }
      else if k < 22 { ShippedNamesFrom20(k); }
      else if k < 24 { ShippedNamesFrom22(k); }
      else if k < 26 { ShippedNamesFrom24(k); }
      else if k < 28 { ShippedNamesFrom26(k); }
      else if k < 30 { ShippedNamesFrom28(k); }
      else { ShippedNamesFrom30(k); }
    }
  }

  /** The names of entries 0 and 1 of the shipped table are plain. */
  lemma ShippedNamesFrom0(k: nat)
    requires 0 <= k <= 1
    ensures Plain(FlagNames()[k].name) && |Shown(FlagNames()[k].name)| > 0
  {
    if k == 0 { assert FlagNames()[0].name == "!LINKS"; PlainWord("!LINKS", "LINKS"); }
    else { assert FlagNames()[1].name == "!IMAGE"; PlainWord("!IMAGE", "IMAGE"); }
  }

  /** The names of entries 2 and 3 of the shipped table are plain. */
  lemma ShippedNamesFrom2(k: nat)
    requires 2 <= k <= 3
    ensures Plain(FlagNames()[k].name) && |Shown(FlagNames()[k].name)| > 0
  {
    if k == 2 { assert FlagNames()[2].name == "!PANTS"; PlainWord("!PANTS", "PANTS"); }
    else { assert FlagNames()[3].name == "!HTML"; PlainWord("!HTML", "HTML"); }
  }

  /** The names of entries 4 and 5 of the shipped table are plain. */
  lemma ShippedNamesFrom4(k: nat)
    requires 4 <= k <= 5
    ensures Plain(FlagNames()[k].name) && |Shown(FlagNames()[k].name)| > 0
  {
    if k == 4 { assert FlagNames()[4].name == "TAGTEXT"; PlainWord("TAGTEXT", "TAGTEXT"); }
    else { assert FlagNames()[5].name == "!EXT"; PlainWord("!EXT", "EXT"); }
  }

  /** The names of entries 6 and 7 of the shipped table are plain. */
  lemma ShippedNamesFrom6(k: nat)
    requires 6 <= k <= 7
    ensures Plain(FlagNames()[k].name) && |Shown(FlagNames()[k].name)| > 0
  {
    if k == 6 { assert FlagNames()[6].name == "CDATA"; PlainWord("CDATA", "CDATA"); }
    else { assert FlagNames()[7].name == "!SUPERSCRIPT"; PlainWord("!SUPERSCRIPT", "SUPERSCRIPT"); }
  }

  /** The names of entries 8 and 9 of the shipped table are plain. */
  lemma ShippedNamesFrom8(k: nat)
    requires 8 <= k <= 9
    ensures Plain(FlagNames()[k].name) && |Shown(FlagNames()[k].name)| > 0
  {
    if k == 8 { assert FlagNames()[8].name == "STRICT"; PlainWord("STRICT", "STRICT"); }
    else { assert FlagNames()[9].name == "!TABLES"; PlainWord("!TABLES", "TABLES"); }
  }

  /** The names of entries 10 and 11 of the shipped table are plain. */
  lemma ShippedNamesFrom10(k: nat)
    requires 10 <= k <= 11
    ensures Plain(FlagNames()[k].name) && |Shown(FlagNames()[k].name)| > 0
  {
    if k == 10 { assert FlagNames()[10].name == "!STRIKETHROUGH"; PlainWord("!STRIKETHROUGH", "STRIKETHROUGH"); }
    else { assert FlagNames()[11].name == "TOC"; PlainWord("TOC", "TOC"); }
  }

  /** The names of entries 12 and 13 of the shipped table are plain. */
  lemma ShippedNamesFrom12(k: nat)
    requires 12 <= k <= 13
    ensures Plain(FlagNames()[k].name) && |Shown(FlagNames()[k].name)| > 0
  {
    if k == 12 { assert FlagNames()[12].name == "MKD_1_COMPAT"; PlainWord("MKD_1_COMPAT", "MKD_1_COMPAT"); }
    else { assert FlagNames()[13].name == "AUTOLINK"; PlainWord("AUTOLINK", "AUTOLINK"); }
  }

  /** The names of entries 14 and 15 of the shipped table are plain. */
  lemma ShippedNamesFrom14(k: nat)
    requires 14 <= k <= 15
    ensures Plain(FlagNames()[k].name) && |Shown(FlagNames()[k].name)| > 0
  {
    if k == 14 { assert FlagNames()[14].name == "SAFELINK"; PlainWord("SAFELINK", "SAFELINK"); }
    else { assert FlagNames()[15].name == "!HEADER"; PlainWord("!HEADER", "HEADER"); }
  }

  /** The names of entries 16 and 17 of the shipped table are plain. */
  lemma ShippedNamesFrom16(k: nat)
    requires 16 <= k <= 17
    ensures Plain(FlagNames()[k].name) && |Shown(FlagNames()[k].name)| > 0
  {
    if k == 16 { assert FlagNames()[16].name == "TABSTOP"; PlainWord("TABSTOP", "TABSTOP"); }
    else { assert FlagNames()[17].name == "!DIVQUOTE"; PlainWord("!DIVQUOTE", "DIVQUOTE"); }
  }

  /** The names of entries 18 and 19 of the shipped table are plain. */
  lemma ShippedNamesFrom18(k: nat)
    requires 18 <= k <= 19
    ensures Plain(FlagNames()[k].name) && |Shown(FlagNames()[k].name)| > 0
  {
    if k == 18 { assert FlagNames()[18].name == "!ALPHALIST"; PlainWord("!ALPHALIST", "ALPHALIST"); }
    else { assert FlagNames()[19].name == "FOOTNOTE"; PlainWord("FOOTNOTE", "FOOTNOTE"); }
  }

  /** The names of entries 20 and 21 of the shipped table are plain. */
  lemma ShippedNamesFrom20(k: nat)
    requires 20 <= k <= 21
    ensures Plain(FlagNames()[k].name) && |Shown(FlagNames()[k].name)| > 0
  {
    if k == 20 { assert FlagNames()[20].name == "!STYLE"; PlainWord("!STYLE", "STYLE"); }
    else { assert FlagNames()[21].name == "DLDISCOUNT"; PlainWord("DLDISCOUNT", "DLDISCOUNT"); }
  }

  /** The names of entries 22 and 23 of the shipped table are plain. */
  lemma ShippedNamesFrom22(k: nat)
    requires 22 <= k <= 23
    ensures Plain(FlagNames()[k].name) && |Shown(FlagNames()[k].name)| > 0
  {
    if k == 22 { assert FlagNames()[22].name == "DLEXTRA"; PlainWord("DLEXTRA", "DLEXTRA"); }
    else { assert FlagNames()[23].name == "FENCEDCODE"; PlainWord("FENCEDCODE", "FENCEDCODE"); }
  }

  /** The names of entries 24 and 25 of the shipped table are plain. */
  lemma ShippedNamesFrom24(k: nat)
    requires 24 <= k <= 25
    ensures Plain(FlagNames()[k].name) && |Shown(FlagNames()[k].name)| > 0
  {
    if k == 24 { assert FlagNames()[24].name == "IDANCHOR"; PlainWord("IDANCHOR", "IDANCHOR"); }
    else { assert FlagNames()[25].name == "GITHUBTAGS"; PlainWord("GITHUBTAGS", "GITHUBTAGS"); }
  }

  /** The names of entries 26 and 27 of the shipped table are plain. */
  lemma ShippedNamesFrom26(k: nat)
    requires 26 <= k <= 27
    ensures Plain(FlagNames()[k].name) && |Shown(FlagNames()[k].name)| > 0
  {
    if k == 26 { assert FlagNames()[26].name == "NORMAL_LISTITEM"; PlainWord("NORMAL_LISTITEM", "NORMAL_LISTITEM"); }
    else { assert FlagNames()[27].name == "URLENCODEDANCHOR"; PlainWord("URLENCODEDANCHOR", "URLENCODEDANCHOR"); }
  }

  /** The names of entries 28 and 29 of the shipped table are plain. */
  lemma ShippedNamesFrom28(k: nat)
    requires 28 <= k <= 29
    ensures Plain(FlagNames()[k].name) && |Shown(FlagNames()[k].name)| > 0
  {
    if k == 28 { assert FlagNames()[28].name == "LATEX"; PlainWord("LATEX", "LATEX"); }
    else { assert FlagNames()[29].name == "EXPLICITLIST"; PlainWord("EXPLICITLIST", "EXPLICITLIST"); }
  }

  /** The name of entry 30 of the shipped table is plain. */
  lemma ShippedNamesFrom30(k: nat)
    requires k == 30
    ensures Plain(FlagNames()[k].name) && |Shown(FlagNames()[k].name)| > 0
  {
    assert FlagNames()[30].name == "ALT_AS_TITLE"; PlainWord("ALT_AS_TITLE", "ALT_AS_TITLE");
  }

  /**
   * In the plain report of the shipped table, the `!` marks count exactly the
   * disabled features, and no table markup appears.
   */
  lemma ShippedPlainReportCounts(flags: array?<bool>)
    requires Sized(flags)
    ensures Count('!', Report(FlagNames(), Stored(flags), false)) == Disabled(FlagNames(), Stored(flags), |FlagNames()|)
    ensures Count('<', Report(FlagNames(), Stored(flags), false)) == 0
  {
    ShippedNamesArePlain();
    PlainBodyCounts(FlagNames(), Stored(flags), |FlagNames()|);
  }

  /**
   * Each entry of the shipped table marks a disabled feature: with `!` after
   * the leading space in plain mode, with `<s>` after `<td>` in HTML mode.
   */
  lemma ShippedEntriesMarkDisabled(k: nat, stored: bool)
    requires k < |FlagNames()|
    ensures PlainEntry(FlagNames()[k].name, stored)[0] == ' '
    ensures PlainEntry(FlagNames()[k].name, stored)[1] == '!' <==> !Enabled(FlagNames()[k].name, stored)
    ensures Cell(FlagNames()[k].name, stored)[..4] == "<td>"
    ensures Cell(FlagNames()[k].name, stored)[4] == '<' <==> !Enabled(FlagNames()[k].name, stored)
    ensures !Enabled(FlagNames()[k].name, stored) ==> Cell(FlagNames()[k].name, stored)[4..7] == "<s>"
    ensures Count('!', PlainEntry(FlagNames()[k].name, stored)) == (if Enabled(FlagNames()[k].name, stored) then 0 else 1)
    ensures Count('<', PlainEntry(FlagNames()[k].name, stored)) == 0
  {
    ShippedNamesArePlain();
    PlainEntryMarksDisabled(FlagNames()[k].name, stored);
    CellMarksDisabled(FlagNames()[k].name, stored);
    PlainEntryCounts(FlagNames()[k].name, stored);
  }
}
