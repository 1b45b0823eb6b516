/**
  `DataFrame.groupby(product_column)` with pandas' defaults: one group per
  distinct product name, groups in ascending name order, rows whose name
  is missing dropped, and source row order kept inside each group.
 */
module Grouping {
  import opened Cells
  import opened Order
  import opened Seqs

  /** The rows sharing one product name. */
  datatype Group = Group(name: string, rows: seq<Row>)

  /** The product names the rows carry, in row order. */
  function KeyedNames(rows: seq<Row>, key: string): (r: seq<string>)
    ensures |r| <= |rows|
    ensures forall i :: 0 <= i < |rows| && Get(rows[i], key).Text? ==> Get(rows[i], key).text in r
  {
    if rows == [] then []
    else
      var rest := KeyedNames(rows[1..], key);
      assert forall i :: 1 <= i < |rows| ==> rows[i] == rows[1..][i - 1];
      match Get(rows[0], key)
      case Text(n) => [n] + rest
      case Absent => rest
  }

  /** Every name in `KeyedNames` comes from some row. */
  lemma {:induction false} KeyedNameHasRow(rows: seq<Row>, key: string, n: string)
    requires n in KeyedNames(rows, key)
    ensures exists i :: 0 <= i < |rows| && Get(rows[i], key) == Text(n)
  {
    if Get(rows[0], key) != Text(n) {
      KeyedNameHasRow(rows[1..], key, n);
      var i :| 0 <= i < |rows[1..]| && Get(rows[1..][i], key) == Text(n);
      assert rows[i + 1] == rows[1..][i];
    }
  }

  /** The rows whose name is `name`, in source order. */
  function RowsNamed(rows: seq<Row>, key: string, name: string): (r: seq<Row>)
    ensures IsSubsequence(r, rows)
    ensures forall i :: 0 <= i < |r| ==> Get(r[i], key) == Text(name)
    ensures forall i :: 0 <= i < |rows| && Get(rows[i], key) == Text(name) ==> rows[i] in r
  {
    if rows == [] then []
    else
      var rest := RowsNamed(rows[1..], key, name);
      assert forall i :: 1 <= i < |rows| ==> rows[i] == rows[1..][i - 1];
      if Get(rows[0], key) == Text(name) then [rows[0]] + rest else rest
  }

  function MakeGroups(names: seq<string>, rows: seq<Row>, key: string): (r: seq<Group>)
    ensures |r| == |names|
    ensures forall i :: 0 <= i < |r| ==> r[i] == Group(names[i], RowsNamed(rows, key, names[i]))
  {
    if names == [] then [] else [Group(names[0], RowsNamed(rows, key, names[0]))] + MakeGroups(names[1..], rows, key)
  }

  /** `df.groupby(key)` iterated as `(name, group)` pairs. */
  function GroupBy(rows: seq<Row>, key: string): (r: seq<Group>)
    ensures forall i, j :: 0 <= i < j < |r| ==> Less(r[i].name, r[j].name)
    ensures forall i :: 0 <= i < |r| ==> r[i].rows == RowsNamed(rows, key, r[i].name)
    ensures forall i :: 0 <= i < |r| ==> r[i].rows != []
    ensures forall i :: 0 <= i < |rows| && Get(rows[i], key).Text? ==>
              exists k :: 0 <= k < |r| && r[k].name == Get(rows[i], key).text
  {
    var names := SortedDistinct(KeyedNames(rows, key));
    var r := MakeGroups(names, rows, key);
    assert forall i :: 0 <= i < |r| ==> r[i].rows != [] by {
      forall i | 0 <= i < |r| ensures r[i].rows != [] {
        KeyedNameHasRow(rows, key, names[i]);
      }
    }
    assert forall i :: 0 <= i < |rows| && Get(rows[i], key).Text? ==>
             exists k :: 0 <= k < |r| && r[k].name == Get(rows[i], key).text by {
      forall i | 0 <= i < |rows| && Get(rows[i], key).Text?
        ensures exists k :: 0 <= k < |r| && r[k].name == Get(rows[i], key).text
      {
        var n := Get(rows[i], key).text;
        assert n in names;
        var k :| 0 <= k < |names| && names[k] == n;
        assert r[k].name == n;
      }
    }
    r
  }

  /** Number of rows, over all groups. */
  function TotalRows(groups: seq<Group>): nat {
    if groups == [] then 0 else |groups[0].rows| + TotalRows(groups[1..])
  }

  /** Counting the rows of one more group adds that group's rows. */
  lemma {:induction false} TotalRowsSnoc(groups: seq<Group>, k: nat)
    requires k < |groups|
    ensures TotalRows(groups[..k + 1]) == TotalRows(groups[..k]) + |groups[k].rows|
  {
    if k > 0 {
      TotalRowsSnoc(groups[1..], k - 1);
      assert groups[..k + 1][1..] == groups[1..][..k];
      assert groups[..k][1..] == groups[1..][..k - 1];
    } else {
      assert groups[..1][1..] == [];
    }
  }

  /** Laying out one block per group, each a header line followed by one
      line per row, puts block `k` after `k` header lines and the rows of
      every earlier group. */
  lemma {:induction false} StartRows<T>(blocks: seq<seq<T>>, groups: seq<Group>, k: nat)
    requires |blocks| == |groups| && k <= |groups|
    requires forall i :: 0 <= i < |groups| ==> |blocks[i]| == 1 + |groups[i].rows|
    ensures Start(blocks, k) == k + TotalRows(groups[..k])
  {
    if k > 0 {
      StartRows(blocks, groups, k - 1);
      StartStep(blocks, k - 1);
      TotalRowsSnoc(groups, k - 1);
    }
  }

  function NameSet(names: seq<string>): set<string> {
    set n | n in names
  }

  /** Number of rows whose name is in `names`. */
  function CountNamed(rows: seq<Row>, key: string, names: set<string>): nat {
    if rows == [] then 0
    else
      (if Get(rows[0], key).Text? && Get(rows[0], key).text in names then 1 else 0)
      + CountNamed(rows[1..], key, names)
  }

  lemma {:induction false} CountNamedSplit(rows: seq<Row>, key: string, names: set<string>, n: string)
    requires n !in names
    ensures CountNamed(rows, key, names + {n}) == |RowsNamed(rows, key, n)| + CountNamed(rows, key, names)
  {
    if rows != [] {
      CountNamedSplit(rows[1..], key, names, n);
    }
  }

  lemma {:induction false} MakeGroupsTotal(names: seq<string>, rows: seq<Row>, key: string)
    requires StrictlySorted(names)
    ensures TotalRows(MakeGroups(names, rows, key)) == CountNamed(rows, key, NameSet(names))
  {
    if names == [] {
      assert NameSet(names) == {};
      CountNamedNone(rows, key);
    } else {
      var tail := names[1..];
      assert StrictlySorted(tail);
      MakeGroupsTotal(tail, rows, key);
      assert MakeGroups(names, rows, key)[1..] == MakeGroups(tail, rows, key);
      LessIrreflexive(names[0]);
      assert names[0] !in tail;
      assert NameSet(names) == NameSet(tail) + {names[0]};
      CountNamedSplit(rows, key, NameSet(tail), names[0]);
    }
  }

  lemma {:induction false} CountNamedNone(rows: seq<Row>, key: string)
    ensures CountNamed(rows, key, {}) == 0
  {
    if rows != [] {
      CountNamedNone(rows[1..], key);
    }
  }

  lemma {:induction false} CountNamedAll(rows: seq<Row>, key: string, names: set<string>)
    requires forall n :: n in KeyedNames(rows, key) ==> n in names
    ensures CountNamed(rows, key, names) == |KeyedNames(rows, key)|
  {
    if rows != [] {
      CountNamedAll(rows[1..], key, names);
    }
  }

  /** Grouping partitions the named rows: every row with a product name
      lands in exactly one group, and the groups hold nothing else. */
  lemma GroupByPartition(rows: seq<Row>, key: string)
    ensures TotalRows(GroupBy(rows, key)) == |KeyedNames(rows, key)|
  {
    var names := SortedDistinct(KeyedNames(rows, key));
    MakeGroupsTotal(names, rows, key);
    CountNamedAll(rows, key, NameSet(names));
  }

  /** There is at least one group exactly when some row has a product name. */
  lemma GroupByEmpty(rows: seq<Row>, key: string)
    ensures GroupBy(rows, key) == [] <==> forall i :: 0 <= i < |rows| ==> Get(rows[i], key).Absent?
  {
    if exists i :: 0 <= i < |rows| && Get(rows[i], key).Text? {
      var i :| 0 <= i < |rows| && Get(rows[i], key).Text?;
      assert GroupBy(rows, key) != [];
    } else {
      var names := KeyedNames(rows, key);
      if names != [] {
        KeyedNameHasRow(rows, key, names[0]);
      }
    }
  }
}
