/**
  Output column names. The fixed columns have fixed names; the five
  columns of an attribute are named by a field prefix followed by the
  attribute's slug, and a name can be read back into the field and the
  slug it was built from.
 */
module Keys {

  /** The five per-attribute columns. */
  datatype Field = AttrValue | AttrData | AttrDefault | AttrVariation | AttrMeta

  function Prefix(f: Field): string {
    match f
    case AttrValue => "attribute:pa_"
    case AttrData => "attribute_data:pa_"
    case AttrDefault => "attribute_default:pa_"
    case AttrVariation => "attribute_variation:pa_"
    case AttrMeta => "meta:attribute_pa_"
  }

  /** The name of one field of the attribute with slug `slug`. */
  function Key(f: Field, slug: string): string {
    Prefix(f) + slug
  }

  /** A column name read back: one field of some attribute, or another
      column. */
  datatype KeyKind = FieldKey(field: Field, slug: string) | OtherKey

  predicate StartsWith(k: string, p: string) {
    |p| <= |k| && k[..|p|] == p
  }

  function ParseKey(k: string): KeyKind {
    if StartsWith(k, Prefix(AttrValue)) then FieldKey(AttrValue, k[|Prefix(AttrValue)|..])
    else if StartsWith(k, Prefix(AttrData)) then FieldKey(AttrData, k[|Prefix(AttrData)|..])
    else if StartsWith(k, Prefix(AttrDefault)) then FieldKey(AttrDefault, k[|Prefix(AttrDefault)|..])
    else if StartsWith(k, Prefix(AttrVariation)) then FieldKey(AttrVariation, k[|Prefix(AttrVariation)|..])
    else if StartsWith(k, Prefix(AttrMeta)) then FieldKey(AttrMeta, k[|Prefix(AttrMeta)|..])
    else OtherKey
  }

  /** No prefix starts another one: two different prefixes disagree at an
      index both of them have. */
  lemma PrefixesDiverge(f: Field, g: Field) returns (i: nat)
    requires f != g
    ensures i < |Prefix(f)| && i < |Prefix(g)| && Prefix(f)[i] != Prefix(g)[i]
  {
    if f == AttrMeta || g == AttrMeta {
      i := 0;
    } else if f == AttrValue || g == AttrValue {
      i := 9;
    } else if {f, g} == {AttrData, AttrDefault} {
      i := 11;
    } else {
      i := 10;
    }
  }

  lemma NotOtherPrefix(f: Field, g: Field, slug: string)
    requires f != g
    ensures !StartsWith(Key(f, slug), Prefix(g))
  {
    var i := PrefixesDiverge(f, g);
    var k := Key(f, slug);
    assert k[i] == Prefix(f)[i];
    if |Prefix(g)| <= |k| {
      assert k[..|Prefix(g)|][i] == k[i];
    }
  }

  /** Attribute column names read back as the field and the slug they were
      built from. */
  lemma ParseKeyOfKey(f: Field, slug: string)
    ensures ParseKey(Key(f, slug)) == FieldKey(f, slug)
  {
    var k := Key(f, slug);
    assert k[..|Prefix(f)|] == Prefix(f) && k[|Prefix(f)|..] == slug;
    if f != AttrValue { NotOtherPrefix(f, AttrValue, slug); }
    if f != AttrData { NotOtherPrefix(f, AttrData, slug); }
    if f != AttrDefault { NotOtherPrefix(f, AttrDefault, slug); }
    if f != AttrVariation { NotOtherPrefix(f, AttrVariation, slug); }
  }

  /** Distinct (field, slug) pairs name distinct columns. */
  lemma KeyInjective(f: Field, s: string, g: Field, t: string)
    ensures Key(f, s) == Key(g, t) <==> f == g && s == t
  {
    ParseKeyOfKey(f, s);
    ParseKeyOfKey(g, t);
  }

  /** A name starting with neither `a` nor `m` is no attribute column. */
  lemma ParseKeyPlain(k: string)
    requires k != [] && k[0] != 'a' && k[0] != 'm'
    ensures ParseKey(k) == OtherKey
  {
    forall f: Field ensures !StartsWith(k, Prefix(f)) {
      if |Prefix(f)| <= |k| {
        assert k[..|Prefix(f)|][0] == k[0];
      }
    }
  }

  /** The columns an output record can carry: the fixed ones, `brand`
      (written on parent records, never laid out), and attribute fields. */
  datatype Column =
    | ProductType | PostType | PostTitle | Sku | ParentSkuColumn | RegularPrice | StockStatus
    | Categories | ShortDescription | Description | Images | Brand
    | Attr(field: Field, slug: string)

  function Name(c: Column): string {
    match c
    case ProductType => "product_type"
    case PostType => "post_type"
    case PostTitle => "post_title"
    case Sku => "sku"
    case ParentSkuColumn => "parent_sku"
    case RegularPrice => "regular_price"
    case StockStatus => "stock_status"
    case Categories => "categories"
    case ShortDescription => "short_description"
    case Description => "description"
    case Images => "images"
    case Brand => "brand"
    case Attr(f, s) => Key(f, s)
  }

  /** A column name tells which attribute field, if any, the column is. */
  lemma ParseName(c: Column)
    ensures ParseKey(Name(c)) == (if c.Attr? then FieldKey(c.field, c.slug) else OtherKey)
  {
    if c.Attr? {
      ParseKeyOfKey(c.field, c.slug);
    } else {
      ParseKeyPlain(Name(c));
    }
  }

  /** Two columns with the same name are the same column, unless both are
      fixed columns (whose names are distinct literals). */
  lemma NameInjective(a: Column, b: Column)
    requires a.Attr? || b.Attr?
    ensures Name(a) == Name(b) <==> a == b
  {
    ParseName(a);
    ParseName(b);
  }
}
