/**
  Spreadsheet cells and rows, and the value cleaning the transform applies
  to attribute values (`clean_attr_values`).
 */
module Cells {
  import opened Strings
  import opened Seqs

  /** One spreadsheet cell: text, or missing (pandas `NaN`). Numbers are
      taken to arrive already as text. */
  datatype Cell = Text(text: string) | Absent

  /** One source row, keyed by column name. */
  type Row = map<string, Cell>

  /** `row[col]`; a column the row does not carry reads as missing. */
  function Get(row: Row, col: string): Cell {
    if col in row then row[col] else Absent
  }

  /** The cell as it reaches the CSV file: pandas writes a missing value as
      an empty field. */
  function CsvText(c: Cell): string {
    match c
    case Text(s) => s
    case Absent => ""
  }

  /** The cell as an f-string renders it: a missing value becomes `nan`. */
  function Formatted(c: Cell): string {
    match c
    case Text(s) => s
    case Absent => "nan"
  }

  /** The filter of `clean_attr_values`: present (`pd.notna(v)`) and not
      blank (`str(v).strip()` is truthy). */
  predicate HasContent(c: Cell) {
    c.Text? && Strip(c.text) != ""
  }

  /** What cleaning produces and leaves alone: non-empty, no comma, no
      space, nothing strippable at either end. */
  predicate IsClean(v: string) {
    v != "" && ',' !in v && ' ' !in v && IsStripped(v)
  }

  /** Every value in the list is clean. */
  predicate AllClean(vs: seq<string>) {
    vs == [] || (IsClean(vs[0]) && AllClean(vs[1..]))
  }

  lemma {:induction false} AllCleanMembers(vs: seq<string>, v: string)
    requires AllClean(vs) && v in vs
    ensures IsClean(v)
  {
    if vs[0] != v {
      AllCleanMembers(vs[1..], v);
    }
  }

  /** Commas become pipes, then spaces go; whitespace-ness of every other
      character is unchanged. */
  function Unspaced(s: string): string {
    Remove(Replace(s, ',', '|'), ' ')
  }

  lemma UnspacedWhitespace(s: string)
    ensures AllWhitespace(Unspaced(s)) <==> AllWhitespace(s)
  {
    assert !IsWhitespace(',') && !IsWhitespace('|') && IsWhitespace(' ');
    var t := Replace(s, ',', '|');
    var u := Remove(t, ' ');
    if AllWhitespace(s) {
      assert t == s by {
        forall i | 0 <= i < |s| ensures t[i] == s[i] {
          assert IsWhitespace(s[i]);
        }
      }
      forall i | 0 <= i < |u| ensures IsWhitespace(u[i]) {
        assert u[i] in u;
        var j :| 0 <= j < |s| && s[j] == u[i];
      }
    } else {
      var k :| 0 <= k < |s| && !IsWhitespace(s[k]);
      assert !IsWhitespace(t[k]);
      assert t[k] in t && t[k] != ' ';
      assert t[k] in u;
      var j :| 0 <= j < |u| && u[j] == t[k];
    }
  }

  /** One value as `clean_attr_values` rewrites it:
      `str(v).replace(',', '|').replace(' ', '').strip()`. */
  function CleanValue(s: string): (r: string)
    ensures ',' !in r && ' ' !in r
    ensures IsStripped(r)
    ensures r == "" <==> Strip(s) == ""
  {
    CleanedFacts(s);
    Strip(Unspaced(s))
  }

  /** Cleaning keeps the characters it does not drop in their order, once
      commas have become pipes, and it keeps every character that is not
      whitespace: each pipe of the input and one pipe per comma. */
  lemma CleanValueKeeps(s: string, c: char)
    requires !IsWhitespace(c) && c != ','
    ensures IsSubsequence(CleanValue(s), Replace(s, ',', '|'))
    ensures Count(CleanValue(s), c) == Count(s, c) + (if c == '|' then Count(s, ',') else 0)
  {
    var t := Replace(s, ',', '|');
    var u := Remove(t, ' ');
    assert IsWhitespace(' ');
    RemoveKeepsOrder(t, ' ');
    StripKeeps(u, c);
    SubsequenceTransitive(Strip(u), u, t);
    RemoveCount(t, ' ', c);
    ReplaceCount(s, ',', '|', c);
  }

  /** When its only whitespace is spaces, a value cleans to exactly the
      value with commas turned into pipes and the spaces dropped. */
  lemma CleanValueOfSpaced(s: string)
    requires forall i :: 0 <= i < |s| && IsWhitespace(s[i]) ==> s[i] == ' '
    ensures CleanValue(s) == Remove(Replace(s, ',', '|'), ' ')
  {
    var u := Unspaced(s);
    UnspacedNoWhitespace(s);
    assert IsStripped(u) by {
      if u != [] {
        assert !IsWhitespace(u[0]) && !IsWhitespace(u[|u| - 1]);
      }
    }
    StripStripped(u);
  }

  lemma UnspacedNoWhitespace(s: string)
    requires forall i :: 0 <= i < |s| && IsWhitespace(s[i]) ==> s[i] == ' '
    ensures forall k :: 0 <= k < |Unspaced(s)| ==> !IsWhitespace(Unspaced(s)[k])
  {
    var t := Replace(s, ',', '|');
    var u := Remove(t, ' ');
    assert !IsWhitespace('|');
    forall k | 0 <= k < |u| ensures !IsWhitespace(u[k]) {
      assert u[k] in u;
      assert u[k] in t && u[k] != ' ';
      var m :| 0 <= m < |t| && t[m] == u[k];
      if s[m] == ',' {
        assert u[k] == '|';
      } else {
        assert u[k] == s[m];
      }
    }
  }

  lemma CleanedFacts(s: string)
    ensures ',' !in Strip(Unspaced(s)) && ' ' !in Strip(Unspaced(s))
    ensures Strip(Unspaced(s)) == "" <==> Strip(s) == ""
  {
    var u := Unspaced(s);
    assert ',' !in u by {
      var t := Replace(s, ',', '|');
      forall i | 0 <= i < |t| ensures t[i] != ',' {
      }
    }
    StripKeepsOut(u, ',');
    StripKeepsOut(u, ' ');
    CleanedEmpty(s);
  }

  /** Cleaning adds no character, except the pipes that replace commas. */
  lemma CleanValueKeepsOut(s: string, x: char)
    requires x !in s && (x == '|' ==> ',' !in s)
    ensures x !in CleanValue(s)
  {
    var t := Replace(s, ',', '|');
    forall i | 0 <= i < |t| ensures t[i] != x {
      assert s[i] in s;
    }
    StripKeepsOut(Unspaced(s), x);
  }

  /** `strip()` adds no character. */
  lemma StripKeepsOut(s: string, x: char)
    requires x !in s
    ensures x !in Strip(s)
  {
    var i, j := StripSlice(s);
    forall k | 0 <= k < |Strip(s)| ensures Strip(s)[k] != x {
      assert Strip(s)[k] == s[i + k] && s[i + k] in s;
    }
  }

  lemma CleanedEmpty(s: string)
    ensures Strip(Unspaced(s)) == "" <==> Strip(s) == ""
  {
    UnspacedWhitespace(s);
    StripEmpty(s);
    StripEmpty(Unspaced(s));
  }

  /** What one cell contributes to `clean_attr_values`: its cleaned form,
      or nothing when it is missing or blank. */
  function CleanCell(c: Cell): (r: seq<string>)
    ensures |r| <= 1
    ensures AllClean(r)
  {
    if HasContent(c) then
      var v := CleanValue(c.text);
      AllCleanSingle(v);
      [v]
    else []
  }

  lemma AllCleanSingle(v: string)
    requires IsClean(v)
    ensures AllClean([v])
  {
    assert [v][1..] == [];
  }

  /** `clean_attr_values(values)`: the cleaned form of every present,
      non-blank value, in input order. */
  function CleanValues(cells: seq<Cell>): (r: seq<string>)
    ensures |r| <= |cells|
    ensures AllClean(r)
  {
    if cells == [] then []
    else
      var rest := CleanValues(cells[1..]);
      AllCleanConcat(CleanCell(cells[0]), rest);
      CleanCell(cells[0]) + rest
  }

  lemma {:induction false} AllCleanConcat(a: seq<string>, b: seq<string>)
    requires AllClean(a) && AllClean(b)
    ensures AllClean(a + b)
  {
    if a == [] {
      assert a + b == b;
    } else {
      assert (a + b)[1..] == a[1..] + b;
      AllCleanConcat(a[1..], b);
    }
  }

  /** Some cell is present and not blank. */
  ghost predicate AnyContent(cells: seq<Cell>) {
    exists i :: 0 <= i < |cells| && HasContent(cells[i])
  }

  /** `clean_attr_values` comes back empty exactly when every cell is
      missing or blank. */
  lemma {:induction false} CleanValuesEmpty(cells: seq<Cell>)
    ensures CleanValues(cells) == [] <==> !AnyContent(cells)
  {
    if cells != [] {
      CleanValuesEmpty(cells[1..]);
      if AnyContent(cells[1..]) {
        var i :| 0 <= i < |cells[1..]| && HasContent(cells[1..][i]);
        assert cells[i + 1] == cells[1..][i];
      }
      if AnyContent(cells) && !HasContent(cells[0]) {
        var i :| 0 <= i < |cells| && HasContent(cells[i]);
        assert i > 0 && cells[1..][i - 1] == cells[i];
      }
    }
  }

  /** Cells that all hold the same text `v` clean to copies of `v`'s
      cleaned form, and to at least one exactly when `v` is not blank. */
  lemma {:induction false} CleanValuesConstant(cells: seq<Cell>, v: string)
    requires forall i :: 0 <= i < |cells| ==> cells[i] == Text(v)
    ensures forall i :: 0 <= i < |CleanValues(cells)| ==> CleanValues(cells)[i] == CleanValue(v)
    ensures CleanValues(cells) != [] <==> cells != [] && HasContent(Text(v))
  {
    if cells != [] {
      CleanValuesConstant(cells[1..], v);
      assert cells[0] == Text(v);
    }
  }

  /** Some present, non-blank cell cleans to `v`. */
  ghost predicate CleansTo(cells: seq<Cell>, v: string) {
    exists i :: 0 <= i < |cells| && HasContent(cells[i]) && CleanValue(cells[i].text) == v
  }

  /** The values `clean_attr_values` returns are exactly the cleaned forms
      of the present, non-blank cells. */
  lemma {:induction false} CleanValuesMembers(cells: seq<Cell>, v: string)
    ensures v in CleanValues(cells) <==> CleansTo(cells, v)
  {
    if cells != [] {
      CleanValuesMembers(cells[1..], v);
      if CleansTo(cells[1..], v) {
        var i :| 0 <= i < |cells[1..]| && HasContent(cells[1..][i]) && CleanValue(cells[1..][i].text) == v;
        assert cells[i + 1] == cells[1..][i];
      }
      if CleansTo(cells, v) && !(HasContent(cells[0]) && CleanValue(cells[0].text) == v) {
        var i :| 0 <= i < |cells| && HasContent(cells[i]) && CleanValue(cells[i].text) == v;
        assert i > 0 && cells[1..][i - 1] == cells[i];
      }
    }
  }

  /** Whether some cell cleans to `v` depends only on which present cells
      there are. */
  lemma CleansToCovered(a: seq<Cell>, b: seq<Cell>, v: string)
    requires forall c :: c in a && c.Text? ==> c in b
    ensures CleansTo(a, v) ==> CleansTo(b, v)
  {
    if CleansTo(a, v) {
      var i :| 0 <= i < |a| && HasContent(a[i]) && CleanValue(a[i].text) == v;
      assert a[i] in a;
      var j :| 0 <= j < |b| && b[j] == a[i];
    }
  }

  /** Text cells holding the given values. */
  function AsCells(vs: seq<string>): (r: seq<Cell>)
    ensures |r| == |vs|
  {
    if vs == [] then [] else [Text(vs[0])] + AsCells(vs[1..])
  }

  /** Cleaning leaves a clean value unchanged. */
  lemma CleanValueOfClean(v: string)
    requires ',' !in v && ' ' !in v && IsStripped(v)
    ensures CleanValue(v) == v
  {
    assert Replace(v, ',', '|') == v;
    StripStripped(v);
  }

  /** Cleaning a value twice is cleaning it once. */
  lemma CleanValueIdempotent(s: string)
    ensures CleanValue(CleanValue(s)) == CleanValue(s)
  {
    CleanValueOfClean(CleanValue(s));
  }

  lemma CleanValuesCons(c: Cell, cs: seq<Cell>)
    ensures CleanValues([c] + cs) == CleanCell(c) + CleanValues(cs)
  {
    assert ([c] + cs)[0] == c && ([c] + cs)[1..] == cs;
  }

  /** Cleaning a list of already-clean values returns it unchanged. */
  lemma {:induction false} CleanValuesOfClean(vs: seq<string>)
    requires AllClean(vs)
    ensures CleanValues(AsCells(vs)) == vs
  {
    if vs != [] {
      var v, rest := vs[0], vs[1..];
      assert IsClean(v) && AllClean(rest);
      KeepsClean(v);
      AsCellsCons(v, rest);
      CleanValuesCons(Text(v), AsCells(rest));
      CleanValuesOfClean(rest);
    }
  }

  lemma AsCellsCons(v: string, rest: seq<string>)
    ensures AsCells([v] + rest) == [Text(v)] + AsCells(rest)
  {
    assert ([v] + rest)[1..] == rest;
  }

  lemma KeepsClean(v: string)
    requires IsClean(v)
    ensures CleanCell(Text(v)) == [v]
  {
    StripStripped(v);
    CleanValueOfClean(v);
  }

  /** `clean_attr_values` is idempotent. */
  lemma CleanValuesIdempotent(cells: seq<Cell>)
    ensures CleanValues(AsCells(CleanValues(cells))) == CleanValues(cells)
  {
    CleanValuesOfClean(CleanValues(cells));
  }

  lemma UnspacedConcat(a: string, b: string)
    ensures Unspaced(a + b) == Unspaced(a) + Unspaced(b)
  {
    ReplaceConcat(a, b, ',', '|');
    RemoveConcat(Replace(a, ',', '|'), Replace(b, ',', '|'), ' ');
  }

  /** Whitespace around a value does not change its cleaned form. */
  lemma CleanPadded(a: string, m: string, b: string)
    requires AllWhitespace(a) && AllWhitespace(b)
    ensures CleanValue(a + m + b) == CleanValue(m)
  {
    UnspacedConcat(a + m, b);
    UnspacedConcat(a, m);
    UnspacedWhitespace(a);
    UnspacedWhitespace(b);
    StripPadded(Unspaced(a), Unspaced(m), Unspaced(b));
  }

  /** Stripping a value before cleaning it makes no difference: the value a
      variation row shows (`str(v).strip()`) cleans to the same value as
      the raw cell. */
  lemma CleanAfterStrip(s: string)
    ensures CleanValue(Strip(s)) == CleanValue(s)
  {
    var i, j := StripSlice(s);
    assert s == s[..i] + s[i..j] + s[j..];
    CleanPadded(s[..i], s[i..j], s[j..]);
  }
}
