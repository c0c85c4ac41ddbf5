/**
 * The v3 flag identifiers (the MKD_* constants of markdown.h).
 *
 * markdown.h is not part of this model, so the concrete numbers behind the
 * identifiers are unknown. The model numbers them 0..30 in the order of the
 * flag name table of flags.c; nothing proved elsewhere depends on that choice
 * beyond Index being a bijection onto [0, NrFlags).
 */
module FlagIds {

  datatype Flag =
    | NOLINKS | NOIMAGE | NOPANTS | NOHTML | TAGTEXT | NO_EXT | CDATA
    | NOSUPERSCRIPT | STRICT | NOTABLES | NOSTRIKETHROUGH | TOC | ONE_COMPAT
    | AUTOLINK | SAFELINK | NOHEADER | TABSTOP | NODIVQUOTE | NOALPHALIST
    | EXTRA_FOOTNOTE | NOSTYLE | DLDISCOUNT | DLEXTRA | FENCEDCODE | IDANCHOR
    | GITHUBTAGS | NORMAL_LISTITEM | URLENCODEDANCHOR | LATEX | EXPLICITLIST
    | ALT_AS_TITLE

  /** MKD_NR_FLAGS: the number of slots in a flag set. */
  const NrFlags: nat := 31

  /** The identifier stored in slot i. */
  function FlagAt(i: nat): Flag
    requires i < NrFlags
  {
    match i
    case 0 => NOLINKS
    case 1 => NOIMAGE
    case 2 => NOPANTS
    case 3 => NOHTML
    case 4 => TAGTEXT
    case 5 => NO_EXT
    case 6 => CDATA
    case 7 => NOSUPERSCRIPT
    case 8 => STRICT
    case 9 => NOTABLES
    case 10 => NOSTRIKETHROUGH
    case 11 => TOC
    case 12 => ONE_COMPAT
    case 13 => AUTOLINK
    case 14 => SAFELINK
    case 15 => NOHEADER
    case 16 => TABSTOP
    case 17 => NODIVQUOTE
    case 18 => NOALPHALIST
    case 19 => EXTRA_FOOTNOTE
    case 20 => NOSTYLE
    case 21 => DLDISCOUNT
    case 22 => DLEXTRA
    case 23 => FENCEDCODE
    case 24 => IDANCHOR
    case 25 => GITHUBTAGS
    case 26 => NORMAL_LISTITEM
    case 27 => URLENCODEDANCHOR
    case 28 => LATEX
    case 29 => EXPLICITLIST
    case 30 => ALT_AS_TITLE
  }

  /** The slot of a flag set that stores identifier f. */
  function Index(f: Flag): (i: nat)
    ensures i < NrFlags && FlagAt(i) == f
  {
    match f
    case NOLINKS => 0
    case NOIMAGE => 1
    case NOPANTS => 2
    case NOHTML => 3
    case TAGTEXT => 4
    case NO_EXT => 5
    case CDATA => 6
    case NOSUPERSCRIPT => 7
    case STRICT => 8
    case NOTABLES => 9
    case NOSTRIKETHROUGH => 10
    case TOC => 11
    case ONE_COMPAT => 12
    case AUTOLINK => 13
    case SAFELINK => 14
    case NOHEADER => 15
    case TABSTOP => 16
    case NODIVQUOTE => 17
    case NOALPHALIST => 18
    case EXTRA_FOOTNOTE => 19
    case NOSTYLE => 20
    case DLDISCOUNT => 21
    case DLEXTRA => 22
    case FENCEDCODE => 23
    case IDANCHOR => 24
    case GITHUBTAGS => 25
    case NORMAL_LISTITEM => 26
    case URLENCODEDANCHOR => 27
    case LATEX => 28
    case EXPLICITLIST => 29
    case ALT_AS_TITLE => 30
  }

  /** Every slot belongs to exactly one identifier: Index is onto [0, NrFlags). */
  lemma IndexOnto(i: nat)
    requires i < NrFlags
    ensures Index(FlagAt(i)) == i
  {
    if i == 0 { }
    else if i == 1 { }
    else if i == 2 { }
    else if i == 3 { }
    else if i == 4 { }
    else if i == 5 { }
    else if i == 6 { }
    else if i == 7 { }
    else if i == 8 { }
    else if i == 9 { }
    else if i == 10 { }
    else if i == 11 { }
    else if i == 12 { }
    else if i == 13 { }
    else if i == 14 { }
    else if i == 15 { }
    else if i == 16 { }
    else if i == 17 { }
    else if i == 18 { }
    else if i == 19 { }
    else if i == 20 { }
    else if i == 21 { }
    else if i == 22 { }
    else if i == 23 { }
    else if i == 24 { }
    else if i == 25 { }
    else if i == 26 { }
    else if i == 27 { }
    else if i == 28 { }
    else if i == 29 { }
    else if i == 30 { }
  }

  /** Distinct identifiers use distinct slots. */
  lemma IndexInjective(f: Flag, g: Flag)
    ensures Index(f) == Index(g) <==> f == g
  {
  }
}
