# HNE data import transform, in Dafny

`hne-data-import-transform.py` is a small Streamlit app. It reads a flat
product sheet with one row per product variation. It writes a WebToffee
(WooCommerce) import CSV with a parent "variable" product per product name,
followed by one "variation" row per sheet row. This project models the pure
part of that app (lines 50–183) as Dafny functions over immutable data.
It proves what the output looks like:

- which columns become attributes, and the slug that names each one;
- how attribute values are cleaned (`clean_attr_values`);
- how rows are grouped by product name;
- the parent record of each product: brand-prefixed SKU, first-row fields,
  and per attribute the sorted, de-duplicated, `|`-joined value list and
  the visibility flags;
- the variation record of each row: fixed fields, the parent SKU, and the
  row's stripped value for every variation attribute;
- the output layout: eleven fixed columns, then five columns per attribute
  in configuration order, with every missing cell blank;
- the guard inside the product loop that stops the run when no attribute
  is configured, which a sheet without any product name never reaches (it
  gives a table with only the header).

Modules, in dependency order:

| module | file | what it holds |
|---|---|---|
| `Strings` | strings.dfy | `str.strip`, `replace`, ASCII `upper`/`lower`, `join`, `split`, with their laws |
| `Seqs` | seqs.dfy | subsequences; flattening a list of blocks |
| `Order` | order.dfy | Python's string order and `sorted(set(xs))` |
| `Cells` | cells.dfy | cells (`Text` or `Absent`), rows as maps, `clean_attr_values` |
| `Classify` | classify.dfy | attribute candidates, slugs, the attribute configuration |
| `Grouping` | grouping.dfy | `DataFrame.groupby` with pandas' defaults |
| `Keys` | keys.dfy | output column names and the attribute-field prefixes |
| `Records` | records.dfy | parent and variation records as maps from column to text |
| `Output` | output.dfy | the header and the projection of a record onto it |
| `Transform` | transform.dfy | the whole transform and the facts about its rows |

Records are keyed by a `Column` datatype, not by name strings.
`Keys.NameInjective` shows that two columns share a name only when they are
the same column, unless both are fixed columns (whose names are distinct
literals). So the string-keyed dictionaries of the source and the
column-keyed maps here hold the same data.

Line 84 sets column `brand` of the frame to the typed brand name after
`groupby` has been called but before the loop reads any group, so every row
the loop reads holds the typed brand there (`Transform.Stamp`,
`Transform.GroupBrand`). Products are still found and named from the sheet
as it was. A sheet column called `brand` that is configured as an attribute
therefore takes its values from the typed brand, not from the sheet. The
parent's `attribute:` cell holds the typed brand cleaned (commas become pipes
and spaces go, so `Acme Co` shows as `AcmeCo`), or nothing when the brand is
blank (`Transform.BrandParentAttribute`). A variation's `attribute_data:`
cell holds the typed brand stripped, but only when the attribute is a
variation attribute and the brand is not blank, and is blank otherwise
(`Transform.BrandVariationAttribute`).

Several functions only compute, and lemmas state what they compute:

| function | lemmas that state its contract |
|---|---|
| `Records.ParentRecord` | `ParentFixedCells`, `ParentAttributeCells`, `ParentAttributesFrame`, `ParentKeepsPlain`, `ParentHasNoMeta` |
| `Records.VariationRecord` | `VariationFixedCells`, `VariationAttributeCells`, `VariationAttributesFrame`, `VariationKeepsPlain`, `VariationOnlyData` |
| `Records.ParentSku`, `Records.BrandPrefix` | `ParentSkuParts`, `BrandPrefixSpec`, `BrandPrefixUnique`, and `Transform.SkuShared` for the output rows |
| `Records.ParentValues` | `ParentValuesMembers`, `ParentValuesSplit`, `ParentValuesConstant`, `UniqueIrrelevant` |
| `Output.Project` | `ProjectWidths`, `ProjectRowAt`, `ProjectFixed`, `ProjectAttribute` |
| `Strings.Strip` | `StripSlice`, `StripKeeps`, `StripEmpty`, `StripPadded` |
| `Strings.Join`, `Strings.Split` | `SplitJoin` |
| `Strings.Upper`, `Strings.Lower` (ASCII `str.upper`, `str.lower`) | their own pointwise contracts; `Classify.Slug` and `Records.BrandPrefixSpec` state what they make of a column name and a brand |
| `Order.Less` (Python's string `<`) | `LessIrreflexive`, `LessAsymmetric`, `LessTransitive`, `LessTotal`, so that `SortedDistinct` and `StrictlySortedUnique` describe `sorted` |
| `Transform.Transform` | `TransformParentRow`, `TransformVariationRow`, `SkuShared` |

## Model

| member | source | states |
|---|---|---|
| Classify.CandidateColumns | hne-data-import-transform.py:50-54 | a column is a candidate exactly when it is in the sheet, not one of the eight essential columns and not numeric; candidates keep sheet order |
| Classify.Slug | hne-data-import-transform.py:69 | the slug has the column's length, no space and no capital letter; each space becomes `-` and every other character is lower-cased |
| Classify.CandidateColumnsUnique | hne-data-import-transform.py:50-54 | for a sheet with no column named twice, the membership and sheet-order properties of the candidate list fix it: any list with both is the candidate list |
| Classify.Configure | hne-data-import-transform.py:56-73 | configured attributes keep candidate order; each one carries its column's slug and the variation and visibility flags chosen for that column |
| Classify.ConfigureUnique | hne-data-import-transform.py:56-73 | for candidates with no name twice, a list of attributes whose columns are the ticked candidates in candidate order, each with its slug and its flags, is the configuration |
| Classify.ConfigureSelects | hne-data-import-transform.py:57-61 | a column is configured exactly when it is a candidate whose use box is ticked |
| Cells.CleanValue | hne-data-import-transform.py:79 | a cleaned value has no comma and no space, has nothing to strip at either end, and is empty exactly when the raw value is blank |
| Cells.CleanValues | hne-data-import-transform.py:78-79 | the result is no longer than the input, and every value in it is non-empty, comma-free, space-free and stripped |
| Cells.CleanValuesEmpty | hne-data-import-transform.py:78-79 | cleaning returns nothing exactly when every cell is missing or blank |
| Cells.CleanValuesMembers | hne-data-import-transform.py:78-79 | a value is in the result exactly when some present, non-blank cell cleans to it |
| Cells.CleanValueIdempotent | hne-data-import-transform.py:79 | cleaning a value twice is cleaning it once |
| Cells.CleanValuesIdempotent | hne-data-import-transform.py:78-79 | cleaning an already-cleaned list gives it back unchanged |
| Cells.CleanAfterStrip | hne-data-import-transform.py:148 | stripping a value before cleaning it changes nothing, so a variation's stripped value cleans like the raw cell |
| Cells.CleanValueKeeps | hne-data-import-transform.py:79 | the cleaned value keeps the characters of the comma-to-pipe text in order, and every character that is not whitespace or a comma occurs as often as in the raw value, a pipe once more per comma |
| Cells.CleanValueOfSpaced | hne-data-import-transform.py:79 | for a value whose only whitespace is the space, cleaning is exactly: commas to pipes, then every space taken out |
| Cells.CleanValuesConstant | hne-data-import-transform.py:78-79 | cleaning a column that holds the same text in every cell gives that text cleaned in every place, and nothing exactly when the text is blank |
| Cells.CleanValueKeepsOut | hne-data-import-transform.py:79 | cleaning adds no character, except pipes in place of commas |
| Strings.StripEmpty | hne-data-import-transform.py:79 | `strip()` is empty exactly for whitespace-only text |
| Strings.StripSlice | hne-data-import-transform.py:79 | `strip()` removes a whitespace prefix and a whitespace suffix and keeps the middle |
| Strings.StripPadded | hne-data-import-transform.py:148 | whitespace added around a string does not change its `strip()` |
| Strings.Strip | hne-data-import-transform.py:79 | `strip()` leaves no whitespace at either end and never lengthens the text |
| Strings.StripKeeps | hne-data-import-transform.py:79 | `strip()` keeps the characters in order and keeps the count of every character that is not whitespace |
| Strings.RemoveKeepsOrder | hne-data-import-transform.py:79 | `replace(x, '')` keeps the other characters in order and shortens the text by the number of `x` it held |
| Strings.RemoveUnique | hne-data-import-transform.py:79 | a subsequence without `x` that is as long as the text less its `x`s is `replace(x, '')` of it |
| Strings.ReplaceCount | hne-data-import-transform.py:79 | `replace(x, y)` moves the count of `x` onto `y` and keeps every other count |
| Strings.SplitJoin | hne-data-import-transform.py:113 | splitting a pipe-join on the pipe gives back the joined values when none of them holds a pipe |
| Order.SortedDistinct | hne-data-import-transform.py:113 | `sorted(set(xs))`: strictly increasing, and holds exactly the elements of `xs` |
| Order.StrictlySortedUnique | hne-data-import-transform.py:113 | two strictly sorted lists with the same elements are equal, so `sorted(set(xs))` has one possible result |
| Order.SortedDistinctOfSameElements | hne-data-import-transform.py:113 | the sorted value list depends only on which values occur, not on their order or repetition |
| Grouping.GroupBy | hne-data-import-transform.py:82-86 | groups come in strictly increasing name order; each holds exactly the rows with its name, in row order, and is non-empty; every named row has a group |
| Grouping.GroupByPartition | hne-data-import-transform.py:82-86 | the groups together hold as many rows as there are rows with a product name |
| Grouping.GroupByEmpty | hne-data-import-transform.py:82-86 | there is no group exactly when no row has a product name |
| Keys.ParseName | hne-data-import-transform.py:167-173 | an attribute column's name reads back as its field and slug; no fixed column's name reads as an attribute field |
| Keys.KeyInjective | hne-data-import-transform.py:167-173 | two attribute field names are equal exactly when field and slug both are |
| Keys.NameInjective | hne-data-import-transform.py:156-176 | an attribute column shares its name with no other column |
| Records.BrandPrefixSpec | hne-data-import-transform.py:88 | the prefix is the upper-cased brand with its spaces taken out: it keeps the other characters in order and is as long as the brand less its spaces; it has no lower-case ASCII letter and holds exactly the upper-cased characters of the brand other than space |
| Records.BrandPrefixUnique | hne-data-import-transform.py:88 | any space-free subsequence of the upper-cased brand as long as the brand less its spaces is the prefix, so the properties above pin it |
| Records.ParentSkuParts | hne-data-import-transform.py:87-89 | the parent SKU starts with the brand's upper-cased characters other than space, in order and nothing else, then a `-`, then the first row's SKU as an f-string renders it |
| Records.ParentAttributesFrame | hne-data-import-transform.py:107-121 | the parent attribute loop writes only the four non-meta columns of configured slugs |
| Records.ParentAttributeShown | hne-data-import-transform.py:107-121 | an attribute with a value left after cleaning shows the joined sorted values, the visibility flags, `1` and a blank default |
| Records.ParentAttributeSkipped | hne-data-import-transform.py:108-111 | an attribute with no value left after cleaning leaves its parent columns untouched |
| Records.ParentHasNoMeta | hne-data-import-transform.py:90-122 | a parent record never has a `meta:` column |
| Records.ParentKeepsPlain | hne-data-import-transform.py:90-121 | the attribute loop leaves the parent's fixed fields and `brand` as the base fields set them |
| Records.ParentFixedCells | hne-data-import-transform.py:90-101 | a parent shows `variable`, `product`, the product name, the brand, the parent SKU, `instock` and the first row's category, descriptions and image; its parent SKU and regular price are blank |
| Records.ParentAttributeCells | hne-data-import-transform.py:106-121 | with distinct slugs, each attribute's five parent cells are the join, the flags, a blank, `1` and a blank when a value survives cleaning, and all blank otherwise |
| Records.UniqueIrrelevant | hne-data-import-transform.py:109 | cleaning only the distinct present cells (`dropna().unique()`) in any order gives the same sorted value list as cleaning the whole column |
| Records.ParentValuesMembers | hne-data-import-transform.py:109-113 | the parent's values are strictly sorted and clean, and are exactly the cleaned forms of the column's present, non-blank cells |
| Records.ParentValuesConstant | hne-data-import-transform.py:109-113 | a column holding the same text in every row of a group gives the parent that text, cleaned, as its only value, or no value when the text is blank |
| Records.ParentValuesSplit | hne-data-import-transform.py:113-114 | when no cell holds a comma or pipe, the parent's joined value splits back into its value list |
| Records.VariationValue | hne-data-import-transform.py:136-150 | a variation's attribute value is populated exactly for a variation attribute whose column exists and whose cell is present and not blank; it is then the stripped cell |
| Records.VariationAttributesFrame | hne-data-import-transform.py:136-150 | the variation attribute loop writes only the `attribute_data:` columns of configured slugs |
| Records.VariationAttributePresent | hne-data-import-transform.py:138 | every configured attribute has its `attribute_data:` column on every variation |
| Records.VariationAttributeValue | hne-data-import-transform.py:136-150 | with distinct slugs, a variation's `attribute_data:` column holds that attribute's variation value |
| Records.VariationKeepsPlain | hne-data-import-transform.py:126-135 | the attribute loop leaves a variation's fixed fields as the base fields set them |
| Records.VariationOnlyData | hne-data-import-transform.py:126-150 | a variation never carries `brand` or any attribute column other than `attribute_data:` |
| Records.VariationFixedCells | hne-data-import-transform.py:126-135 | a variation shows `variation`, `product_variation`, the product name, its own SKU and image, the parent SKU, price `0` and `instock`, with category, descriptions and brand blank |
| Records.VariationAttributeCells | hne-data-import-transform.py:136-151 | with distinct slugs, a variation's five cells for an attribute are blank except `attribute_data:`, which holds the variation value |
| Records.VariationValueInParent | hne-data-import-transform.py:140-150 | a populated variation value comes from an attribute the parent emits, and cleans to one of the parent's values |
| Records.VariationMatchesParentRecord | hne-data-import-transform.py:109-150 | without commas or pipes in the column, a variation's populated value, cleaned, is one of the pipe-separated values of its parent's `attribute:` cell |
| Output.AttrColumnsBlock | hne-data-import-transform.py:163-173 | the attribute columns come in blocks of five, value, data, default, variation and meta, one block per attribute in configuration order |
| Output.AttrColumnsOfSlugs | hne-data-import-transform.py:163-173 | every attribute column is a field of a configured slug |
| Output.AttrNameNotFixed | hne-data-import-transform.py:176 | no attribute column has the name of a fixed column |
| Output.WithoutFixed | hne-data-import-transform.py:176 | the filter keeps exactly the columns that are not fixed |
| Output.WithoutFixedKeeps | hne-data-import-transform.py:176 | the filter drops nothing from a list that has no fixed column |
| Output.Header | hne-data-import-transform.py:156-176 | the header is the eleven fixed columns and then every attribute column, none dropped; `brand` is not in it |
| Output.ProjectWidths | hne-data-import-transform.py:177-183 | every laid-out row has exactly one cell per header column |
| Output.ProjectRow | hne-data-import-transform.py:177-183 | a laid-out record has exactly one cell per header column |
| Output.ProjectRowAt | hne-data-import-transform.py:177-183 | each cell of a laid-out record is the record's text for that header column, or a blank when the record lacks the column |
| Output.ProjectFixed | hne-data-import-transform.py:156-183 | the first eleven cells of a laid-out record are its fixed fields, in header order |
| Output.ProjectAttribute | hne-data-import-transform.py:163-183 | the five cells of attribute `i` are the record's value, data, default, variation and meta fields |
| Output.AttributeLink | hne-data-import-transform.py:177-183 | when a variation record's `attribute_data:` value cleans to one of the values in its parent's `attribute:` cell, the same holds for the two laid-out rows (`ValueListed`) |
| Transform.Transform | hne-data-import-transform.py:81-183 | the run fails exactly when no attribute is configured and some row has a product name. On success, the header is the fixed names and then the attribute names, there is one row per product plus one per named row, and each row is as long as the header |
| Transform.Stamp | hne-data-import-transform.py:84 | a stamped row reads the typed brand in column `brand` and is unchanged in every other column |
| Transform.SheetColumns | hne-data-import-transform.py:84 | once `brand` is set, the frame's columns are the sheet's and `brand` |
| Transform.Groups | hne-data-import-transform.py:82-86 | every product has a row; the products together hold every row with a product name; there is none exactly when no row has one |
| Transform.GroupRows | hne-data-import-transform.py:82-86 | products come in strictly ascending name order, and product `k` holds the rows with its name, in sheet order, each stamped with the brand |
| Transform.GroupBrand | hne-data-import-transform.py:84-86 | every row the loop reads has the typed brand in column `brand`, whatever the sheet held there |
| Transform.OffsetRows | hne-data-import-transform.py:122-151 | product `k`'s records start after one parent and one variation per row for every earlier product |
| Transform.AllRecordsLength | hne-data-import-transform.py:122-151 | there is one record per product plus one per row of its group |
| Transform.Layout | hne-data-import-transform.py:122-151 | each product's records sit together: its parent, then one variation per row in row order |
| Transform.ParentRow | hne-data-import-transform.py:122 | product `k`'s parent row is at the product's offset |
| Transform.VariationRow | hne-data-import-transform.py:125-151 | product `k`'s `j`-th variation row follows the parent after `j` earlier variations |
| Transform.TransformParentRow | hne-data-import-transform.py:81-122 | with an attribute configured, the transform succeeds and its row `k + (rows of the first k products)` is product `k`'s parent laid out on the header |
| Transform.TransformVariationRow | hne-data-import-transform.py:81-151 | with an attribute configured, the transform succeeds and the row `j + 1` after product `k`'s parent is the variation of the product's `j`-th row laid out on the header |
| Transform.SkuShared | hne-data-import-transform.py:89-131 | in the output, every variation row's `parent_sku` cell equals its parent row's `sku` cell |
| Transform.ParentCells | hne-data-import-transform.py:90-101 | a parent row's fixed cells: `variable`, `product`, the name, the parent SKU, blank parent SKU and price, `instock`, and the first row's category, descriptions and image |
| Transform.VariationCells | hne-data-import-transform.py:126-135 | a variation row's fixed cells: `variation`, `product_variation`, the name, its own SKU, the parent SKU, `0`, `instock`, blank category and descriptions, and its own image |
| Transform.ParentAttributeRow | hne-data-import-transform.py:106-121 | a parent row's five cells for an attribute: join, flags, blank, `1`, blank when a value survives cleaning, all blank otherwise |
| Transform.VariationAttributeRow | hne-data-import-transform.py:136-151 | a variation row's five cells for an attribute: blank, the variation value, then three blanks |
| Transform.BrandParentAttribute | hne-data-import-transform.py:84-121 | with a sheet column `brand` configured as an attribute, the parent's `attribute:` cell for it is the typed brand cleaned, not the sheet's values, or blank when the brand is blank |
| Transform.BrandVariationAttribute | hne-data-import-transform.py:84-150 | with a sheet column `brand` configured as an attribute, each variation's `attribute_data:` cell for it is the typed brand stripped when the attribute is a variation attribute and the brand is not blank, and blank otherwise |
| Transform.VariationMatchesParent | hne-data-import-transform.py:109-150 | without commas or pipes in the column, a variation row's populated value, cleaned, is one of the values its parent row lists |

## Left out

- The Streamlit interface is not modelled: upload, sheet choice, role pickers, previews and the download button (lines 26–48, 56–76, 186–193). The role columns, brand and sheet arrive as `Transform.Input`.
- The checkboxes at lines 59–67 are not modelled as widgets. `Classify.Configure` takes a map from column to `Decision`, and an unmentioned column gets the boxes' default values.
- pandas dtype inference (`is_numeric_dtype`, line 54) is not modelled. `Classify.CandidateColumns` takes the set of numeric columns as a parameter.
- `str()` of numbers and floats is not modelled. Every present cell is already text; `Cell.Absent` stands for `NaN`.
- Number formatting aside, a missing first-row SKU renders as `nan` in the parent SKU, as the f-string does. A missing cell written to the CSV is blank (`Cells.CsvText`).
- Case conversion (`upper()`/`lower()`) is modelled for ASCII letters only, so slugs and brand prefixes of non-ASCII names are not exact. `strip()` uses Python's full whitespace set.
- Records.ParentAttributeCells and the other per-attribute lemmas require distinct slugs. The source does nothing about two columns that slug the same (line 69): on a variation the later one always overwrites the earlier one's `attribute_data:` column (line 138 writes it for every attribute). On the parent the later one overwrites the earlier one's four columns only when a value survives its cleaning; otherwise the `continue` at line 111 leaves the earlier one's columns in place. The header lists the block twice. The model computes that case but proves nothing about it.
- Records.VariationMatchesParentRecord and Transform.VariationMatchesParent require that no cell of the attribute's column holds a comma or a pipe. Otherwise cleaning turns commas into pipes, and the parent's joined value no longer splits back into single values.
- The variation-side code at lines 141–147 is not modelled: it builds a peer mask and a parent value set and never uses them.
- Records.BrandPrefix: its own contract says only that no space is left. `Records.BrandPrefixSpec` and `Records.BrandPrefixUnique` state and pin the rest, as lemmas, so that callers of the function do not carry them.
- The header filter at line 176 compares names. `Output.WithoutFixed` compares columns, and `Output.AttrNameNotFixed` shows the two tests agree.
- The CSV encoding itself (pandas quoting and UTF-8 bytes, line 186) is not modelled. The output is the table of cell texts.
- A role column named `brand` (the SKU or category column) also reads the typed brand once line 84 has run. The model computes this through `Transform.Stamp`, but no lemma singles it out.

## Where the docstring and the code differ

The model follows the code in both places.

- Line 14 says `regular_price` is 0 for all rows. Only variations get `0` (line 132). A parent record has no `regular_price` key, so its cell is blank (`Records.ParentFixedCells`, `Transform.ParentCells`).
- Line 12 says a variation's `attribute_data:` cell lists the available values, pipe-separated, only for variation attributes with fewer options than the parent. The code at lines 136–150 writes the row's own stripped value for every variation attribute whose cell is present and not blank. The peer mask and parent value set it builds for that rule (lines 141–147) are never used (`Records.VariationValue`, `Transform.VariationAttributeRow`).
