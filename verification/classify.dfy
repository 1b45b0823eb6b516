/**
  Attribute classification: which columns of the sheet may become product
  attributes, how each one is configured, and the slug that names it in
  the output columns.
 */
module Classify {
  import opened Strings
  import opened Seqs

  /** The columns the user picks for SKU, product name and categories. */
  datatype Roles = Roles(sku: string, product: string, category: string)

  /** Columns that never become attributes: the three role columns and the
      well-known product fields. */
  function Essential(roles: Roles): set<string> {
    {roles.sku, roles.product, roles.category,
     "Price", "Short description", "Description", "Image URL", "Regular price"}
  }

  /** The attribute candidates: every column that is neither essential nor
      numeric (`numeric` names the columns pandas infers a numeric dtype
      for), in sheet order. */
  function CandidateColumns(columns: seq<string>, numeric: set<string>, roles: Roles): (r: seq<string>)
    ensures forall c :: c in r <==> c in columns && c !in Essential(roles) && c !in numeric
    ensures IsSubsequence(r, columns)
  {
    if columns == [] then []
    else
      var rest := CandidateColumns(columns[1..], numeric, roles);
      var c := columns[0];
      if c !in Essential(roles) && c !in numeric then [c] + rest else rest
  }

  /** `col.lower().replace(" ", "-")`. */
  function Slug(col: string): (r: string)
    ensures |r| == |col|
    ensures ' ' !in r
    ensures forall i :: 0 <= i < |r| ==> !('A' <= r[i] <= 'Z')
    ensures forall i :: 0 <= i < |col| && col[i] != ' ' ==> r[i] == LowerChar(col[i])
    ensures forall i :: 0 <= i < |col| && col[i] == ' ' ==> r[i] == '-'
  {
    var r := Replace(Lower(col), ' ', '-');
    assert ' ' !in r by {
      forall i | 0 <= i < |r| ensures r[i] != ' ' {
        assert Lower(col)[i] == LowerChar(col[i]);
      }
    }
    r
  }

  /** A slug is its own slug: slugging is idempotent. */
  lemma SlugIdempotent(col: string)
    ensures Slug(Slug(col)) == Slug(col)
  {
    var s := Slug(col);
    forall i | 0 <= i < |s| ensures Slug(s)[i] == s[i] {
      assert s[i] != ' ';
    }
  }

  /** Slugs ignore the case of ASCII letters. */
  lemma SlugIgnoresCase(col: string)
    ensures Slug(Lower(col)) == Slug(col)
  {
    var l := Lower(col);
    forall i | 0 <= i < |col| ensures Slug(l)[i] == Slug(col)[i] {
      if col[i] == ' ' {
        assert l[i] == ' ';
      } else {
        assert l[i] != ' ';
      }
    }
  }

  /** With no column named twice in the sheet, the two properties of
      `CandidateColumns` fix its result: any list of sheet columns in sheet
      order with exactly the candidates as members is the candidate list. */
  lemma CandidateColumnsUnique(columns: seq<string>, numeric: set<string>, roles: Roles, r: seq<string>)
    requires Distinct(columns) && IsSubsequence(r, columns)
    requires forall c :: c in r <==> c in columns && c !in Essential(roles) && c !in numeric
    ensures r == CandidateColumns(columns, numeric, roles)
  {
    SubsequenceUnique(r, CandidateColumns(columns, numeric, roles), columns);
  }

  /** The three checkboxes shown for one candidate column. */
  datatype Decision = Decision(use: bool, isVariation: bool, visibleInfo: bool)

  /** What the checkboxes say before anyone touches them: used, not a
      variation attribute, not visible. */
  const DefaultDecision := Decision(true, false, false)

  function DecisionFor(decisions: map<string, Decision>, col: string): Decision {
    if col in decisions then decisions[col] else DefaultDecision
  }

  /** One configured attribute. */
  datatype AttrConfig = AttrConfig(col: string, slug: string, isVariation: bool, visibleInfo: bool)

  function ConfigColumns(config: seq<AttrConfig>): (r: seq<string>)
    ensures |r| == |config|
    ensures forall i :: 0 <= i < |config| ==> r[i] == config[i].col
  {
    if config == [] then [] else [config[0].col] + ConfigColumns(config[1..])
  }

  /** The attribute configuration: the candidates marked for use, in
      candidate order, each with its slug and its two flags. */
  function Configure(candidates: seq<string>, decisions: map<string, Decision>): (r: seq<AttrConfig>)
    ensures IsSubsequence(ConfigColumns(r), candidates)
    ensures forall i :: 0 <= i < |r| ==>
              && r[i].slug == Slug(r[i].col)
              && r[i].isVariation == DecisionFor(decisions, r[i].col).isVariation
              && r[i].visibleInfo == DecisionFor(decisions, r[i].col).visibleInfo
  {
    if candidates == [] then []
    else
      var rest := Configure(candidates[1..], decisions);
      var c := candidates[0];
      var d := DecisionFor(decisions, c);
      if d.use then
        var r := [AttrConfig(c, Slug(c), d.isVariation, d.visibleInfo)] + rest;
        assert ConfigColumns(r) == [c] + ConfigColumns(rest);
        r
      else rest
  }

  /** A candidate is configured exactly when its `use` box is ticked. */
  lemma {:induction false} ConfigureSelects(candidates: seq<string>, decisions: map<string, Decision>, c: string)
    ensures c in ConfigColumns(Configure(candidates, decisions)) <==> c in candidates && DecisionFor(decisions, c).use
  {
    if candidates != [] {
      var x := candidates[0];
      var rest := Configure(candidates[1..], decisions);
      ConfigureSelects(candidates[1..], decisions, c);
      assert candidates == [x] + candidates[1..];
      if DecisionFor(decisions, x).use {
        assert ConfigColumns(Configure(candidates, decisions)) == [x] + ConfigColumns(rest);
      }
    }
  }

  /** Each attribute carries its column's slug and the flags chosen for
      its column. */
  predicate Decided(config: seq<AttrConfig>, decisions: map<string, Decision>) {
    forall i :: 0 <= i < |config| ==>
      && config[i].slug == Slug(config[i].col)
      && config[i].isVariation == DecisionFor(decisions, config[i].col).isVariation
      && config[i].visibleInfo == DecisionFor(decisions, config[i].col).visibleInfo
  }

  /** With no candidate named twice, the contracts of `Configure` and
      `ConfigureSelects` fix the configuration: any list of attributes
      whose columns are the ticked candidates in candidate order, each
      with its slug and its two flags, is the configuration. */
  lemma ConfigureUnique(candidates: seq<string>, decisions: map<string, Decision>, r: seq<AttrConfig>)
    requires Distinct(candidates) && IsSubsequence(ConfigColumns(r), candidates)
    requires forall c :: c in ConfigColumns(r) <==> c in candidates && DecisionFor(decisions, c).use
    requires Decided(r, decisions)
    ensures r == Configure(candidates, decisions)
  {
    var q := Configure(candidates, decisions);
    forall c ensures c in ConfigColumns(r) <==> c in ConfigColumns(q) {
      ConfigureSelects(candidates, decisions, c);
    }
    SubsequenceUnique(ConfigColumns(r), ConfigColumns(q), candidates);
    assert Decided(q, decisions);
    SameColumnsSame(r, q, decisions);
  }

  /** Attributes decided the same way are fixed by their columns. */
  lemma SameColumnsSame(r: seq<AttrConfig>, q: seq<AttrConfig>, decisions: map<string, Decision>)
    requires ConfigColumns(r) == ConfigColumns(q) && Decided(r, decisions) && Decided(q, decisions)
    ensures r == q
  {
    assert |r| == |ConfigColumns(r)| == |q|;
    forall i | 0 <= i < |r| ensures r[i] == q[i] {
      assert r[i].col == ConfigColumns(r)[i] == q[i].col;
    }
  }
}
