/**
 Normalisation of text cells: whitespace trimming (Python's `str.strip()`)
 and lower-casing, each switched on by the configuration, applied to every
 text cell of a private copy of a table.
 */
module Normalization {
  import opened Types

  /** The characters for which Python's `str.isspace()` holds: tab, line feed,
      vertical tab, form feed, carriage return, the four information
      separators, space, next line, no-break space, the Ogham space mark, the
      eleven spaces from en quad to hair space, the line and paragraph
      separators, the narrow no-break and medium mathematical spaces, and the
      ideographic space. */
  const Whitespace: set<char> := {
    '\t', '\n', '\U{0B}', '\U{0C}', '\r',
    '\U{1C}', '\U{1D}', '\U{1E}', '\U{1F}',
    ' ', '\U{85}', '\U{A0}', '\U{1680}',
    '\U{2000}', '\U{2001}', '\U{2002}', '\U{2003}', '\U{2004}', '\U{2005}',
    '\U{2006}', '\U{2007}', '\U{2008}', '\U{2009}', '\U{200A}',
    '\U{2028}', '\U{2029}', '\U{202F}', '\U{205F}', '\U{3000}'
  }

  /** Python's `str.isspace()` for one character. */
  predicate IsSpace(c: char) {
    c in Whitespace
  }

  predicate IsUpper(c: char) {
    'A' <= c <= 'Z'
  }

  function LowerChar(c: char): char {
    if IsUpper(c) then (c as int + 32) as char else c
  }

  /** Drops the leading whitespace of `s`. */
  function StripLeading(s: string): (r: string)
    ensures |r| <= |s| && r == s[|s| - |r|..]
    ensures forall i :: 0 <= i < |s| - |r| ==> IsSpace(s[i])
    ensures r != [] ==> !IsSpace(r[0])
    decreases |s|
  {
    if s != [] && IsSpace(s[0]) then StripLeading(s[1..]) else s
  }

  /** Drops the trailing whitespace of `s`. */
  function StripTrailing(s: string): (r: string)
    ensures |r| <= |s| && r == s[..|r|]
    ensures forall i :: |r| <= i < |s| ==> IsSpace(s[i])
    ensures r != [] ==> !IsSpace(r[|r| - 1])
    decreases |s|
  {
    if s != [] && IsSpace(s[|s| - 1]) then StripTrailing(s[..|s| - 1]) else s
  }

  /** Python's `str.strip()`. */
  function Strip(s: string): string {
    StripTrailing(StripLeading(s))
  }

  /** Python's `str.lower()`, restricted to ASCII letters. */
  function Lower(s: string): string {
    seq(|s|, i requires 0 <= i < |s| => LowerChar(s[i]))
  }

  /** Strip removes exactly the surrounding whitespace: the result is a slice
      of the input that neither starts nor ends with whitespace, and everything
      cut away is whitespace. */
  lemma {:induction false} StripSpec(s: string)
    ensures var r, i := Strip(s), |s| - |StripLeading(s)|;
      && (r != [] ==> !IsSpace(r[0]) && !IsSpace(r[|r| - 1]))
      && 0 <= i <= i + |r| <= |s| && r == s[i..i + |r|]
      && (forall k :: 0 <= k < i ==> IsSpace(s[k]))
      && (forall k :: i + |r| <= k < |s| ==> IsSpace(s[k]))
  {
    StripEnds(s);
    StripSlice(s);
  }

  /** The stripped text neither starts nor ends with whitespace. */
  lemma {:induction false} StripEnds(s: string)
    ensures var r := Strip(s); r != [] ==> !IsSpace(r[0]) && !IsSpace(r[|r| - 1])
  {
    var l := StripLeading(s);
    var r := StripTrailing(l);
    if r != [] {
      assert r[0] == l[0];
    }
  }

  /** The stripped text is the slice of the input between two runs of
      whitespace. */
  lemma {:induction false} StripSlice(s: string)
    ensures var r, i := Strip(s), |s| - |StripLeading(s)|;
      && 0 <= i <= i + |r| <= |s| && r == s[i..i + |r|]
      && (forall k :: 0 <= k < i ==> IsSpace(s[k]))
      && (forall k :: i + |r| <= k < |s| ==> IsSpace(s[k]))
  {
    var l := StripLeading(s);
    var r := StripTrailing(l);
    var i := |s| - |l|;
    assert l == s[i..];
    assert r == l[..|r|];
    assert r == s[i..i + |r|];
    forall k | i + |r| <= k < |s| ensures IsSpace(s[k]) {
      assert s[k] == l[k - i];
    }
  }

  lemma StripIdempotent(s: string)
    ensures Strip(Strip(s)) == Strip(s)
  {
    var r := Strip(s);
    if r != [] {
      assert r[0] == StripLeading(s)[0];
    }
  }

  /** The lower-case ASCII letters in alphabetical order. */
  const LowerAlphabet: string := "abcdefghijklmnopqrstuvwxyz"

  /** Case folding by table lookup, independent of `LowerChar`: an upper-case
      ASCII letter becomes the letter at the same place of the alphabet. */
  function FoldCase(c: char): char {
    if IsUpper(c) then LowerAlphabet[c as int - 'A' as int] else c
  }

  /** Lower-casing one character is case folding. */
  lemma LowerCharFolds(c: char)
    ensures LowerChar(c) == FoldCase(c)
  {
    if IsUpper(c) {
      var j := c as int - 'A' as int;
      assert 0 <= j < 26;
      assert LowerAlphabet[j] as int == 'a' as int + j;
    }
  }

  /** Lower-casing sends each upper-case ASCII letter to the same letter of the
      lower-case alphabet, leaves every other character, and is idempotent. */
  lemma LowerSpec(s: string)
    ensures |Lower(s)| == |s|
    ensures forall i :: 0 <= i < |s| ==> !IsUpper(Lower(s)[i])
    ensures forall i :: 0 <= i < |s| && IsUpper(s[i]) ==> Lower(s)[i] == LowerAlphabet[s[i] as int - 'A' as int]
    ensures forall i :: 0 <= i < |s| && !IsUpper(s[i]) ==> Lower(s)[i] == s[i]
    ensures Lower(Lower(s)) == Lower(s)
  {
    forall i | 0 <= i < |s| && IsUpper(s[i])
      ensures Lower(s)[i] == LowerAlphabet[s[i] as int - 'A' as int]
    {
      LowerCharFolds(s[i]);
    }
  }

  /** Two texts that differ at most in the case of ASCII letters. */
  predicate EqualIgnoringAsciiCase(x: string, y: string) {
    |x| == |y| && forall i :: 0 <= i < |x| ==> FoldCase(x[i]) == FoldCase(y[i])
  }

  /** Lower-casing identifies exactly the texts that differ only in case. */
  lemma LowerEqualIff(x: string, y: string)
    ensures Lower(x) == Lower(y) <==> EqualIgnoringAsciiCase(x, y)
  {
    forall i | 0 <= i < |x| ensures Lower(x)[i] == FoldCase(x[i]) {
      LowerCharFolds(x[i]);
    }
    forall i | 0 <= i < |y| ensures Lower(y)[i] == FoldCase(y[i]) {
      LowerCharFolds(y[i]);
    }
    if EqualIgnoringAsciiCase(x, y) {
      assert forall i :: 0 <= i < |x| ==> Lower(x)[i] == Lower(y)[i];
    }
  }

  /** Lower-casing never turns a space into a non-space or back. */
  lemma LowerCharKeepsSpace(c: char)
    ensures IsSpace(LowerChar(c)) == IsSpace(c)
  {
  }

  lemma {:induction false} StripLeadingLower(s: string)
    ensures StripLeading(Lower(s)) == Lower(StripLeading(s))
    decreases |s|
  {
    if s != [] {
      var t := Lower(s);
      assert t[0] == LowerChar(s[0]);
      LowerCharKeepsSpace(s[0]);
      assert t[1..] == Lower(s[1..]);
      if IsSpace(s[0]) {
        assert StripLeading(t) == StripLeading(t[1..]);
        StripLeadingLower(s[1..]);
      } else {
        assert StripLeading(t) == t;
      }
    }
  }

  lemma {:induction false} StripTrailingLower(s: string)
    ensures StripTrailing(Lower(s)) == Lower(StripTrailing(s))
    decreases |s|
  {
    if s != [] {
      var t := Lower(s);
      var n := |s| - 1;
      assert t[n] == LowerChar(s[n]);
      LowerCharKeepsSpace(s[n]);
      assert t[..n] == Lower(s[..n]);
      if IsSpace(s[n]) {
        assert StripTrailing(t) == StripTrailing(t[..n]);
        StripTrailingLower(s[..n]);
      } else {
        assert StripTrailing(t) == t;
      }
    }
  }

  /** Trimming and lower-casing commute, so the order the engine applies them in
      (trim first) does not change the result. */
  lemma StripLowerCommute(s: string)
    ensures Strip(Lower(s)) == Lower(Strip(s))
  {
    StripLeadingLower(s);
    StripTrailingLower(StripLeading(s));
  }

  // ---------------------------------------------------------------------------
  // Cells, rows and tables

  /** One pass of the normaliser over the text columns. */
  datatype TextOp = TrimText | LowerText

  /** A pass changes text cells only. */
  function ApplyOp(op: TextOp, v: Value): Value {
    match v
    case Str(s) => Str(if op == TrimText then Strip(s) else Lower(s))
    case _ => v
  }

  /** A cell after the whole normaliser: trimmed first (if configured), then
      lower-cased (if not case-sensitive). */
  function NormalizeCell(v: Value, cfg: Config): (r: Value)
    ensures r.Null? <==> v.Null?
    ensures r.Str? <==> v.Str?
    ensures !v.Str? ==> r == v
  {
    var trimmed := if cfg.trimWhitespace then ApplyOp(TrimText, v) else v;
    if !cfg.caseSensitive then ApplyOp(LowerText, trimmed) else trimmed
  }

  /** Under case-insensitive comparison, two text cells that differ only in
      the case of their letters normalise to the same cell, so their keys
      fall into one group; with trimming off, only such cells do. */
  lemma CaseInsensitiveMerges(x: string, y: string, cfg: Config)
    ensures !cfg.caseSensitive && EqualIgnoringAsciiCase(x, y) ==>
      NormalizeCell(Str(x), cfg) == NormalizeCell(Str(y), cfg)
    ensures !cfg.caseSensitive && !cfg.trimWhitespace && NormalizeCell(Str(x), cfg) == NormalizeCell(Str(y), cfg) ==>
      EqualIgnoringAsciiCase(x, y)
  {
    if !cfg.caseSensitive {
      LowerEqualIff(x, y);
      if cfg.trimWhitespace {
        StripLowerCommute(x);
        StripLowerCommute(y);
        assert NormalizeCell(Str(x), cfg) == Str(Strip(Lower(x)));
        assert NormalizeCell(Str(y), cfg) == Str(Strip(Lower(y)));
      }
    }
  }

  function NormalizeRow(r: Row, cfg: Config): Row {
    map c | c in r :: NormalizeCell(r[c], cfg)
  }

  /** The normalised copy of a table. */
  function NormalizeTable(t: Table, cfg: Config): (n: Table)
    ensures n.columns == t.columns && |n.rows| == |t.rows|
  {
    Table(t.columns, seq(|t.rows|, i requires 0 <= i < |t.rows| => NormalizeRow(t.rows[i], cfg)))
  }

  /** What normalisation does to one cell: a non-text cell is unchanged; a text
      cell stays text, is trimmed when trimming is on, has no upper-case letter
      when comparison is case-insensitive, and is untouched when both are off. */
  lemma NormalizeCellSpec(v: Value, cfg: Config)
    ensures !v.Str? ==> NormalizeCell(v, cfg) == v
    ensures v.Str? ==> NormalizeCell(v, cfg).Str?
    ensures v.Str? && cfg.trimWhitespace ==> Strip(NormalizeCell(v, cfg).s) == NormalizeCell(v, cfg).s
    ensures v.Str? && !cfg.caseSensitive ==> forall i :: 0 <= i < |NormalizeCell(v, cfg).s| ==> !IsUpper(NormalizeCell(v, cfg).s[i])
    ensures v.Str? && !cfg.trimWhitespace && cfg.caseSensitive ==> NormalizeCell(v, cfg) == v
  {
    if v.Str? {
      var s := v.s;
      var t := if cfg.trimWhitespace then Strip(s) else s;
      var r := if cfg.caseSensitive then t else Lower(t);
      assert NormalizeCell(v, cfg) == Str(r);
      if !cfg.caseSensitive {
        LowerSpec(t);
      }
      if cfg.trimWhitespace {
        StripIdempotent(s);
        if !cfg.caseSensitive {
          StripLowerCommute(t);
        }
      }
    }
  }

  lemma NormalizeCellIdempotent(v: Value, cfg: Config)
    ensures NormalizeCell(NormalizeCell(v, cfg), cfg) == NormalizeCell(v, cfg)
  {
    if v.Str? {
      var s := v.s;
      if cfg.trimWhitespace && !cfg.caseSensitive {
        StripLowerCommute(Strip(s));
        StripIdempotent(s);
        LowerSpec(Strip(s));
        assert NormalizeCell(v, cfg) == Str(Lower(Strip(s)));
      } else if cfg.trimWhitespace {
        StripIdempotent(s);
      } else if !cfg.caseSensitive {
        LowerSpec(s);
      }
    }
  }

  /** Normalising twice is normalising once. */
  lemma NormalizeTableIdempotent(t: Table, cfg: Config)
    ensures NormalizeTable(NormalizeTable(t, cfg), cfg) == NormalizeTable(t, cfg)
  {
    var n := NormalizeTable(t, cfg);
    var nn := NormalizeTable(n, cfg);
    forall i | 0 <= i < |t.rows| ensures nn.rows[i] == n.rows[i] {
      forall c | c in n.rows[i] ensures NormalizeCell(n.rows[i][c], cfg) == n.rows[i][c] {
        NormalizeCellIdempotent(t.rows[i][c], cfg);
      }
    }
  }

  /** The normalised copy has the same columns and number of rows, and is
      still a well-formed table; a null cell stays null and a non-null one
      stays non-null. */
  lemma NormalizeTableShape(t: Table, cfg: Config)
    requires t.WellFormed()
    ensures NormalizeTable(t, cfg).WellFormed()
    ensures NormalizeTable(t, cfg).columns == t.columns
    ensures |NormalizeTable(t, cfg).rows| == |t.rows|
    ensures forall i, c :: 0 <= i < |t.rows| && c in t.rows[i] ==>
      c in NormalizeTable(t, cfg).rows[i] &&
      (NormalizeTable(t, cfg).rows[i][c].Null? <==> t.rows[i][c].Null?)
  {
    var n := NormalizeTable(t, cfg);
    forall r | r in n.rows ensures r.Keys == set c | c in t.columns {
      var i :| 0 <= i < |n.rows| && n.rows[i] == r;
      assert t.rows[i] in t.rows;
    }
  }

  // ---------------------------------------------------------------------------
  // The private copy the engine normalises column by column

  /** The normaliser's view of `df[col] = op(df[col])` applied to the columns
      `done`: cells of those columns have had the pass applied. */
  function PartialRow(r: Row, done: seq<string>, op: TextOp): Row {
    map c | c in r :: if c in done then ApplyOp(op, r[c]) else r[c]
  }

  function ApplyRow(r: Row, op: TextOp): Row {
    map c | c in r :: ApplyOp(op, r[c])
  }

  /** Overwrites one column of every row with the pass applied to it. */
  function SetColumn(rows: seq<Row>, col: string, op: TextOp): seq<Row> {
    seq(|rows|, i requires 0 <= i < |rows| =>
      if col in rows[i] then rows[i][col := ApplyOp(op, rows[i][col])] else rows[i])
  }

  lemma PartialRowStep(r: Row, done: seq<string>, col: string, op: TextOp)
    requires col in r && col !in done
    ensures PartialRow(r, done + [col], op)
         == PartialRow(r, done, op)[col := ApplyOp(op, PartialRow(r, done, op)[col])]
  {
  }

  lemma PartialRowAll(r: Row, cols: seq<string>, op: TextOp)
    requires forall c :: c in r ==> c in cols
    ensures PartialRow(r, cols, op) == ApplyRow(r, op)
  {
  }

  /** The passes `_normalize_dataframe` runs give the normalised row, for each
      setting of the two options. */
  lemma ApplyRowTwice(r: Row, cfg: Config)
    ensures cfg.trimWhitespace && !cfg.caseSensitive ==>
      ApplyRow(ApplyRow(r, TrimText), LowerText) == NormalizeRow(r, cfg)
    ensures cfg.trimWhitespace && cfg.caseSensitive ==> ApplyRow(r, TrimText) == NormalizeRow(r, cfg)
    ensures !cfg.trimWhitespace && !cfg.caseSensitive ==> ApplyRow(r, LowerText) == NormalizeRow(r, cfg)
    ensures !cfg.trimWhitespace && cfg.caseSensitive ==> r == NormalizeRow(r, cfg)
  {
  }

  /** A working copy of a table, whose columns the normaliser overwrites in place. */
  class Frame {
    const columns: seq<string>
    var rows: seq<Row>

    ghost predicate Valid()
      reads this
    {
      Table(columns, rows).WellFormed()
    }

    /** `df.copy()`. */
    constructor Copy(t: Table)
      requires t.WellFormed()
      ensures Valid() && columns == t.columns && rows == t.rows
    {
      columns := t.columns;
      rows := t.rows;
    }

    /** One pass of `_normalize_dataframe`: for each column in turn, the column
        is replaced by the pass applied to it. */
    method ApplyToColumns(op: TextOp)
      requires Valid()
      modifies this
      ensures Valid()
      ensures |rows| == |old(rows)|
      ensures forall i :: 0 <= i < |rows| ==> rows[i] == ApplyRow(old(rows)[i], op)
    {
      ghost var orig := rows;
      for j := 0 to |columns|
        invariant |rows| == |orig|
        invariant forall i :: 0 <= i < |rows| ==> rows[i] == PartialRow(orig[i], columns[..j], op)
      {
        var col := columns[j];
        assert col !in columns[..j];
        forall i | 0 <= i < |rows| ensures SetColumn(rows, col, op)[i] == PartialRow(orig[i], columns[..j + 1], op) {
          assert orig[i] in orig;
          assert columns[..j + 1] == columns[..j] + [col];
          PartialRowStep(orig[i], columns[..j], col, op);
        }
        rows := SetColumn(rows, col, op);
      }
      forall i | 0 <= i < |rows| ensures rows[i] == ApplyRow(orig[i], op) {
        assert orig[i] in orig;
        assert columns[..|columns|] == columns;
        PartialRowAll(orig[i], columns, op);
      }
      forall r | r in rows ensures r.Keys == set c | c in columns {
        var i :| 0 <= i < |rows| && rows[i] == r;
        assert orig[i] in orig;
      }
    }

    /** `_normalize_dataframe`: a trimming pass if configured, then a
        lower-casing pass if not case-sensitive. */
    method Normalize(cfg: Config)
      requires Valid()
      modifies this
      ensures Valid()
      ensures rows == NormalizeTable(Table(columns, old(rows)), cfg).rows
    {
      ghost var orig := rows;
      if cfg.trimWhitespace {
        ApplyToColumns(TrimText);
      }
      ghost var trimmed := rows;
      if !cfg.caseSensitive {
        ApplyToColumns(LowerText);
      }
      forall i | 0 <= i < |rows| ensures rows[i] == NormalizeRow(orig[i], cfg) {
        ApplyRowTwice(orig[i], cfg);
      }
    }
  }
}
