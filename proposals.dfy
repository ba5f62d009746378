/** The proposal table and the queries `ProposalSearcher` runs over it:
    `get_unique_values`, `search_proposals` and `search_by_keyword`. */
module Proposals {
  import opened Wrappers
  import opened Text
  import opened Ordering

  /** One row of the proposal table; `None` is an empty (NaN) cell. The
      numeric `cost` column is not part of the model. */
  datatype Record = Record(
    category: Option<string>,
    who: Option<string>,
    result: Option<string>,
    fullName: Option<string>,
    timePlace: Option<string>,
    content: Option<string>)

  /** The text columns of the table. */
  datatype Column = CategoryColumn | WhoColumn | ResultColumn | FullNameColumn | TimePlaceColumn | ContentColumn

  /** The column's header in the table file. */
  function NameOf(c: Column): string
  {
    match c
    case CategoryColumn => "category"
    case WhoColumn => "who"
    case ResultColumn => "result"
    case FullNameColumn => "full_name"
    case TimePlaceColumn => "time_place"
    case ContentColumn => "content"
  }

  /** The column a header names, if it is one of the table's columns
      (`field in self.proposals_df.columns`). */
  function ColumnNamed(name: string): (c: Option<Column>)
    ensures c.Some? ==> NameOf(c.value) == name
    ensures forall col :: NameOf(col) == name ==> c == Some(col)
  {
    if name == "category" then Some(CategoryColumn)
    else if name == "who" then Some(WhoColumn)
    else if name == "result" then Some(ResultColumn)
    else if name == "full_name" then Some(FullNameColumn)
    else if name == "time_place" then Some(TimePlaceColumn)
    else if name == "content" then Some(ContentColumn)
    else None
  }

  /** The cell of row `r` in column `c`. */
  function Cell(r: Record, c: Column): Option<string>
  {
    match c
    case CategoryColumn => r.category
    case WhoColumn => r.who
    case ResultColumn => r.result
    case FullNameColumn => r.fullName
    case TimePlaceColumn => r.timePlace
    case ContentColumn => r.content
  }

  // ---------------------------------------------------------------------------
  // Selecting rows (`df[condition]`)

  /** The rows satisfying `keep`, in table order. */
  function Select(rows: seq<Record>, keep: Record -> bool): seq<Record>
  {
    if rows == [] then []
    else (if keep(rows[0]) then [rows[0]] else []) + Select(rows[1..], keep)
  }

  /** The positions, from `lo` on, of the rows satisfying `keep`, ascending. */
  function Positions(rows: seq<Record>, keep: Record -> bool, lo: nat): (h: seq<nat>)
    requires lo <= |rows|
    ensures forall k :: 0 <= k < |h| ==> lo <= h[k] < |rows|
    ensures forall k, l :: 0 <= k < l < |h| ==> h[k] < h[l]
    ensures forall i :: lo <= i < |rows| ==> (i in h <==> keep(rows[i]))
    decreases |rows| - lo
  {
    if lo == |rows| then []
    else (if keep(rows[lo]) then [lo] else []) + Positions(rows, keep, lo + 1)
  }

  lemma {:induction false} SelectFrom(rows: seq<Record>, keep: Record -> bool, lo: nat)
    requires lo <= |rows|
    ensures |Select(rows[lo..], keep)| == |Positions(rows, keep, lo)|
    ensures forall k :: 0 <= k < |Positions(rows, keep, lo)| ==>
              Select(rows[lo..], keep)[k] == rows[Positions(rows, keep, lo)[k]]
    decreases |rows| - lo
  {
    if lo < |rows| {
      SelectFrom(rows, keep, lo + 1);
      assert rows[lo..][1..] == rows[lo + 1..];
    }
  }

  /** `df[condition]` keeps exactly the rows satisfying the condition, each
      once, in table order: the result is the table's rows at the ascending
      positions where `keep` holds. */
  lemma SelectKeepsMatchingRowsInOrder(rows: seq<Record>, keep: Record -> bool)
    ensures var h := Positions(rows, keep, 0);
            && |Select(rows, keep)| == |h|
            && (forall k :: 0 <= k < |h| ==> Select(rows, keep)[k] == rows[h[k]])
            && (forall k, l :: 0 <= k < l < |h| ==> h[k] < h[l])
            && (forall i :: 0 <= i < |rows| ==> (i in h <==> keep(rows[i])))
  {
    SelectFrom(rows, keep, 0);
    assert rows[0..] == rows;
  }

  /** A value is in the selection iff it is a row of the table satisfying `keep`. */
  lemma {:induction false} SelectMembership(rows: seq<Record>, keep: Record -> bool, x: Record)
    ensures x in Select(rows, keep) <==> x in rows && keep(x)
  {
    if rows != [] {
      SelectMembership(rows[1..], keep, x);
      assert rows == [rows[0]] + rows[1..];
    }
  }

  /** Selecting with a condition every row satisfies returns the table unchanged. */
  lemma {:induction false} SelectEverything(rows: seq<Record>, keep: Record -> bool)
    requires forall i :: 0 <= i < |rows| ==> keep(rows[i])
    ensures Select(rows, keep) == rows
  {
    if rows != [] {
      SelectEverything(rows[1..], keep);
      assert rows == [rows[0]] + rows[1..];
    }
  }

  /** Two conditions that agree on every row select the same rows. */
  lemma {:induction false} SelectAgreeing(rows: seq<Record>, p: Record -> bool, q: Record -> bool)
    requires forall i :: 0 <= i < |rows| ==> p(rows[i]) == q(rows[i])
    ensures Select(rows, p) == Select(rows, q)
  {
    if rows != [] {
      SelectAgreeing(rows[1..], p, q);
    }
  }

  /** Narrowing a selection by a second condition selects by both at once. */
  lemma {:induction false} SelectTwice(rows: seq<Record>, p: Record -> bool, q: Record -> bool, both: Record -> bool)
    requires forall i :: 0 <= i < |rows| ==> both(rows[i]) == (p(rows[i]) && q(rows[i]))
    ensures Select(Select(rows, p), q) == Select(rows, both)
  {
    if rows != [] {
      SelectTwice(rows[1..], p, q, both);
      var head := if p(rows[0]) then [rows[0]] else [];
      SelectAppend(head, Select(rows[1..], p), q);
    }
  }

  lemma {:induction false} SelectAppend(a: seq<Record>, b: seq<Record>, keep: Record -> bool)
    ensures Select(a + b, keep) == Select(a, keep) + Select(b, keep)
  {
    if a == [] {
      assert a + b == b;
    } else {
      SelectAppend(a[1..], b, keep);
      assert (a + b)[1..] == a[1..] + b;
      var head := if keep(a[0]) then [a[0]] else [];
      assert Select(a + b, keep) == head + (Select(a[1..], keep) + Select(b, keep));
    }
  }

  // ---------------------------------------------------------------------------
  // get_unique_values

  /** Column `c` holds the value `v` in some row. */
  predicate Occurs(rows: seq<Record>, c: Column, v: string)
  {
    exists i :: 0 <= i < |rows| && Cell(rows[i], c) == Some(v)
  }

  /** `df[c].dropna()`: the column's non-empty cells in table order. */
  function ColumnValues(rows: seq<Record>, c: Column): (vs: seq<string>)
    ensures forall v :: v in vs <==> Occurs(rows, c, v)
  {
    if rows == [] then []
    else
      var rest := ColumnValues(rows[1..], c);
      assert forall v :: Occurs(rows, c, v) <==> Cell(rows[0], c) == Some(v) || Occurs(rows[1..], c, v) by {
        forall v ensures Occurs(rows, c, v) ==> Cell(rows[0], c) == Some(v) || Occurs(rows[1..], c, v) {
          if Occurs(rows, c, v) {
            var i :| 0 <= i < |rows| && Cell(rows[i], c) == Some(v);
            if i > 0 { assert rows[1..][i - 1] == rows[i]; }
          }
        }
        forall v ensures Occurs(rows[1..], c, v) ==> Occurs(rows, c, v) {
          if Occurs(rows[1..], c, v) {
            var i :| 0 <= i < |rows[1..]| && Cell(rows[1..][i], c) == Some(v);
            assert rows[i + 1] == rows[1..][i];
          }
        }
      }
      (match Cell(rows[0], c) case Some(v) => [v] case None => []) + rest
  }

  /** `vs` is the sorted list of the distinct values column `c` holds. */
  ghost predicate SortedDistinctOf(vs: seq<string>, rows: seq<Record>, c: Column)
  {
    Ascending(vs) && forall v :: v in vs <==> Occurs(rows, c, v)
  }

  /** The four option lists the menu offers. */
  datatype UniqueValues = UniqueValues(
    categories: seq<string>,
    proposers: seq<string>,
    results: seq<string>,
    fullNames: seq<string>)

  /** `get_unique_values`: `sorted(set(df[c].dropna()))` for four columns. */
  function GetUniqueValues(rows: seq<Record>): (u: UniqueValues)
    ensures SortedDistinctOf(u.categories, rows, CategoryColumn)
    ensures SortedDistinctOf(u.proposers, rows, WhoColumn)
    ensures SortedDistinctOf(u.results, rows, ResultColumn)
    ensures SortedDistinctOf(u.fullNames, rows, FullNameColumn)
  {
    UniqueValues(
      SortedSet(ColumnValues(rows, CategoryColumn)),
      SortedSet(ColumnValues(rows, WhoColumn)),
      SortedSet(ColumnValues(rows, ResultColumn)),
      SortedSet(ColumnValues(rows, FullNameColumn)))
  }

  /** The sorted distinct values of a column are unique: any list with those
      two properties is the one `get_unique_values` returns. */
  lemma UniqueValuesDetermined(rows: seq<Record>, c: Column, vs: seq<string>, ws: seq<string>)
    requires SortedDistinctOf(vs, rows, c) && SortedDistinctOf(ws, rows, c)
    ensures vs == ws
  {
    AscendingUnique(vs, ws);
  }

  // ---------------------------------------------------------------------------
  // search_proposals

  /** Python truthiness of an optional string argument. */
  predicate Truthy(arg: Option<string>)
  {
    arg.Some? && arg.value != ""
  }

  /** The row passes every filter that was supplied: equality on category,
      result and full_name, substring containment on who. An empty cell
      never passes a filter on its column. */
  predicate Matches(r: Record, category: Option<string>, proposer: Option<string>,
                    result: Option<string>, fullName: Option<string>)
  {
    && (Truthy(category) ==> r.category == Some(category.value))
    && (Truthy(proposer) ==> r.who.Some? && Contains(r.who.value, proposer.value))
    && (Truthy(result) ==> r.result == Some(result.value))
    && (Truthy(fullName) ==> r.fullName == Some(fullName.value))
  }

  function ProposalFilter(category: Option<string>, proposer: Option<string>,
                          result: Option<string>, fullName: Option<string>): Record -> bool
  {
    r => Matches(r, category, proposer, result, fullName)
  }

  /** `search_proposals`: narrows a copy of the table by each truthy filter in turn. */
  method SearchProposals(rows: seq<Record>, category: Option<string>, proposer: Option<string>,
                         result: Option<string>, fullName: Option<string>)
    returns (filtered: seq<Record>)
    ensures filtered == Select(rows, ProposalFilter(category, proposer, result, fullName))
  {
    filtered := rows;
    SelectEverything(rows, ProposalFilter(None, None, None, None));

    ghost var stage := ProposalFilter(category, None, None, None);
    if Truthy(category) {
      var byCategory := (r: Record) => r.category == Some(category.value);
      SelectTwice(rows, ProposalFilter(None, None, None, None), byCategory, stage);
      filtered := Select(filtered, byCategory);
    } else {
      SelectAgreeing(rows, ProposalFilter(None, None, None, None), stage);
    }

    ghost var next := ProposalFilter(category, proposer, None, None);
    if Truthy(proposer) {
      var byWho := (r: Record) => r.who.Some? && Contains(r.who.value, proposer.value);
      SelectTwice(rows, stage, byWho, next);
      filtered := Select(filtered, byWho);
    } else {
      SelectAgreeing(rows, stage, next);
    }

    stage := ProposalFilter(category, proposer, result, None);
    if Truthy(result) {
      var byResult := (r: Record) => r.result == Some(result.value);
      SelectTwice(rows, next, byResult, stage);
      filtered := Select(filtered, byResult);
    } else {
      SelectAgreeing(rows, next, stage);
    }

    next := ProposalFilter(category, proposer, result, fullName);
    if Truthy(fullName) {
      var byFullName := (r: Record) => r.fullName == Some(fullName.value);
      SelectTwice(rows, stage, byFullName, next);
      filtered := Select(filtered, byFullName);
    } else {
      SelectAgreeing(rows, stage, next);
    }
  }

  /** With no truthy filter, `search_proposals` returns the whole table in order. */
  lemma {:induction false} SearchWithoutFiltersReturnsTable(rows: seq<Record>, category: Option<string>, proposer: Option<string>,
                                         result: Option<string>, fullName: Option<string>)
    requires !Truthy(category) && !Truthy(proposer) && !Truthy(result) && !Truthy(fullName)
    ensures Select(rows, ProposalFilter(category, proposer, result, fullName)) == rows
  {
    SelectEverything(rows, ProposalFilter(category, proposer, result, fullName));
  }

  /** A row is returned by `search_proposals` iff it satisfies every supplied
      filter; in particular a row whose filtered cell is empty never is. */
  lemma {:induction false} SearchProposalsMembership(rows: seq<Record>, category: Option<string>, proposer: Option<string>,
                                  result: Option<string>, fullName: Option<string>, x: Record)
    ensures x in Select(rows, ProposalFilter(category, proposer, result, fullName)) <==>
            && x in rows
            && (Truthy(category) ==> x.category == Some(category.value))
            && (Truthy(proposer) ==> x.who.Some? && Contains(x.who.value, proposer.value))
            && (Truthy(result) ==> x.result == Some(result.value))
            && (Truthy(fullName) ==> x.fullName == Some(fullName.value))
  {
    SelectMembership(rows, ProposalFilter(category, proposer, result, fullName), x);
  }

  // ---------------------------------------------------------------------------
  // search_by_keyword

  /** The error pandas raises when asked to concatenate an empty list of masks. */
  datatype SearchError = NoObjectsToConcatenate

  /** `df[c].str.contains(keyword, case=False, na=False)` for one row. */
  predicate CellContains(r: Record, c: Column, keyword: string)
  {
    Cell(r, c).Some? && ContainsIgnoringCase(Cell(r, c).value, keyword)
  }

  /** The columns named in `names`, in order, skipping names that are not columns. */
  function PresentColumns(names: seq<string>): seq<Column>
  {
    if names == [] then []
    else
      PresentColumns(names[..|names| - 1]) +
      (match ColumnNamed(names[|names| - 1]) case Some(c) => [c] case None => [])
  }

  /** Some cell of `r` in one of `cols` contains the keyword. */
  predicate AnyCellContains(r: Record, cols: seq<Column>, keyword: string)
  {
    exists k :: 0 <= k < |cols| && CellContains(r, cols[k], keyword)
  }

  function KeywordFilter(cols: seq<Column>, keyword: string): Record -> bool
  {
    r => AnyCellContains(r, cols, keyword)
  }

  /** The field list searched when none is given. */
  const DefaultFields: seq<string> := ["content"]

  function RequestedFields(searchFields: Option<seq<string>>): seq<string>
  {
    if searchFields.None? then DefaultFields else searchFields.value
  }

  /** Some requested name is a column of the table. */
  predicate NamesSomeColumn(names: seq<string>)
  {
    exists n :: n in names && ColumnNamed(n).Some?
  }

  /** What `search_by_keyword` returns, or the error it raises. */
  function KeywordSearch(rows: seq<Record>, keyword: string, searchFields: Option<seq<string>>)
    : (found: Result<seq<Record>, SearchError>)
    ensures keyword == [] ==> found == Ok([])
    ensures found.Err? <==> keyword != [] && !NamesSomeColumn(RequestedFields(searchFields))
  {
    PresentColumnsEmpty(RequestedFields(searchFields));
    if keyword == [] then Ok([])
    else
      var cols := PresentColumns(RequestedFields(searchFields));
      if cols == [] then Err(NoObjectsToConcatenate)
      else Ok(Select(rows, KeywordFilter(cols, keyword)))
  }

  lemma {:induction false} PresentColumnsPrefix(names: seq<string>, i: nat)
    requires i < |names|
    ensures PresentColumns(names[..i + 1]) ==
            PresentColumns(names[..i]) + (match ColumnNamed(names[i]) case Some(c) => [c] case None => [])
  {
    assert names[..i + 1][..i] == names[..i];
  }

  /** A column is searched iff some requested name names it. */
  lemma {:induction false} PresentColumnsMembership(names: seq<string>, c: Column)
    ensures c in PresentColumns(names) <==> exists n :: n in names && ColumnNamed(n) == Some(c)
  {
    if names != [] {
      var init := names[..|names| - 1];
      PresentColumnsMembership(init, c);
      assert names == init + [names[|names| - 1]];
      if exists n :: n in init && ColumnNamed(n) == Some(c) {
        var n :| n in init && ColumnNamed(n) == Some(c);
        assert n in names;
      }
    }
  }

  lemma {:induction false} PresentColumnsEmpty(names: seq<string>)
    ensures PresentColumns(names) == [] <==> !NamesSomeColumn(names)
  {
    if NamesSomeColumn(names) {
      var n :| n in names && ColumnNamed(n).Some?;
      PresentColumnsMembership(names, ColumnNamed(n).value);
    } else if PresentColumns(names) != [] {
      PresentColumnsMembership(names, PresentColumns(names)[0]);
    }
  }

  /** Names that are not columns are skipped wherever they stand in the list. */
  lemma {:induction false} PresentColumnsAppend(a: seq<string>, b: seq<string>)
    ensures PresentColumns(a + b) == PresentColumns(a) + PresentColumns(b)
    decreases |b|
  {
    if b == [] {
      assert a + b == a;
    } else {
      var init := b[..|b| - 1];
      PresentColumnsAppend(a, init);
      assert (a + b)[..|a + b| - 1] == a + init;
    }
  }

  // The masks that `search_by_keyword` builds and combines.

  /** One per-column mask: row `i` is true iff its cell contains the keyword. */
  function ColumnMask(rows: seq<Record>, c: Column, keyword: string): seq<bool>
  {
    seq(|rows|, i requires 0 <= i < |rows| => CellContains(rows[i], c, keyword))
  }

  /** `pd.concat(masks, axis=1).any(axis=1)`: true where any mask is true. */
  function AnyMask(masks: seq<seq<bool>>, n: nat): seq<bool>
  {
    seq(n, i requires 0 <= i < n => exists k :: 0 <= k < |masks| && i < |masks[k]| && masks[k][i])
  }

  /** `df[mask]`: the rows at the positions where the mask is true, in order. */
  function Compress(rows: seq<Record>, mask: seq<bool>): seq<Record>
    requires |mask| == |rows|
  {
    if rows == [] then []
    else (if mask[0] then [rows[0]] else []) + Compress(rows[1..], mask[1..])
  }

  /** Indexing by a mask computed row by row from a condition selects by that condition. */
  lemma {:induction false} CompressIsSelect(rows: seq<Record>, mask: seq<bool>, keep: Record -> bool)
    requires |mask| == |rows|
    requires forall i :: 0 <= i < |rows| ==> mask[i] == keep(rows[i])
    ensures Compress(rows, mask) == Select(rows, keep)
  {
    if rows != [] {
      CompressIsSelect(rows[1..], mask[1..], keep);
    }
  }

  /** `search_by_keyword`: one mask per requested column, OR-ed, then used to index the table. */
  method SearchByKeyword(rows: seq<Record>, keyword: string, searchFields: Option<seq<string>>)
    returns (found: Result<seq<Record>, SearchError>)
    ensures found == KeywordSearch(rows, keyword, searchFields)
  {
    if keyword == [] {
      return Ok([]);
    }
    var fields := if searchFields.None? then DefaultFields else searchFields.value;
    var masks: seq<seq<bool>> := [];
    for i := 0 to |fields|
      invariant |masks| == |PresentColumns(fields[..i])|
      invariant forall k :: 0 <= k < |masks| ==> masks[k] == ColumnMask(rows, PresentColumns(fields[..i])[k], keyword)
    {
      PresentColumnsPrefix(fields, i);
      var column := ColumnNamed(fields[i]);
      if column.Some? {
        masks := masks + [ColumnMask(rows, column.value, keyword)];
      }
    }
    assert fields[..|fields|] == fields;
    ghost var cols := PresentColumns(fields);
    if masks == [] {
      return Err(NoObjectsToConcatenate);
    }
    var finalMask := AnyMask(masks, |rows|);
    CompressIsSelect(rows, finalMask, KeywordFilter(cols, keyword));
    found := Ok(Compress(rows, finalMask));
  }

  // Properties of search_by_keyword

  /** Some requested name that is a column names a column whose cell in `r`
      contains the keyword, ignoring case. */
  predicate KeywordHit(r: Record, names: seq<string>, keyword: string)
  {
    exists n :: n in names && ColumnNamed(n).Some? && CellContains(r, ColumnNamed(n).value, keyword)
  }

  function HitFilter(names: seq<string>, keyword: string): Record -> bool
  {
    r => KeywordHit(r, names, keyword)
  }

  /** A non-empty keyword with at least one real column selects, in table
      order, exactly the rows where some requested column contains the
      keyword ignoring case (OR across columns); other names are ignored. */
  lemma KeywordSearchSelects(rows: seq<Record>, keyword: string, searchFields: Option<seq<string>>)
    requires keyword != [] && NamesSomeColumn(RequestedFields(searchFields))
    ensures KeywordSearch(rows, keyword, searchFields) == Ok(Select(rows, HitFilter(RequestedFields(searchFields), keyword)))
  {
    var names := RequestedFields(searchFields);
    var cols := PresentColumns(names);
    forall i | 0 <= i < |rows|
      ensures KeywordFilter(cols, keyword)(rows[i]) == HitFilter(names, keyword)(rows[i])
    {
      var r := rows[i];
      if AnyCellContains(r, cols, keyword) {
        var k :| 0 <= k < |cols| && CellContains(r, cols[k], keyword);
        PresentColumnsMembership(names, cols[k]);
        var n :| n in names && ColumnNamed(n) == Some(cols[k]);
        assert KeywordHit(r, names, keyword);
      }
      if KeywordHit(r, names, keyword) {
        var n :| n in names && ColumnNamed(n).Some? && CellContains(r, ColumnNamed(n).value, keyword);
        PresentColumnsMembership(names, ColumnNamed(n).value);
        var k :| 0 <= k < |cols| && cols[k] == ColumnNamed(n).value;
        assert AnyCellContains(r, cols, keyword);
      }
    }
    SelectAgreeing(rows, KeywordFilter(cols, keyword), HitFilter(names, keyword));
  }

  function ContentFilter(keyword: string): Record -> bool
  {
    r => CellContains(r, ContentColumn, keyword)
  }

  /** Without a field list only the content column is searched. */
  lemma KeywordSearchDefaultsToContent(rows: seq<Record>, keyword: string)
    requires keyword != []
    ensures KeywordSearch(rows, keyword, None) == Ok(Select(rows, ContentFilter(keyword)))
  {
    assert DefaultFields[..0] == [];
    assert PresentColumns(DefaultFields) == [ContentColumn];
    forall i | 0 <= i < |rows|
      ensures KeywordFilter([ContentColumn], keyword)(rows[i]) == ContentFilter(keyword)(rows[i])
    {
      if CellContains(rows[i], ContentColumn, keyword) {
        assert [ContentColumn][0] == ContentColumn;
      }
    }
    SelectAgreeing(rows, KeywordFilter([ContentColumn], keyword), ContentFilter(keyword));
  }

  /** A requested name that is not a column changes nothing, wherever it stands. */
  lemma KeywordSearchSkipsUnknownField(rows: seq<Record>, keyword: string, a: seq<string>, b: seq<string>, unknown: string)
    requires ColumnNamed(unknown).None?
    ensures KeywordSearch(rows, keyword, Some(a + [unknown] + b)) == KeywordSearch(rows, keyword, Some(a + b))
  {
    PresentColumnsAppend(a + [unknown], b);
    PresentColumnsAppend(a, [unknown]);
    PresentColumnsAppend(a, b);
    assert [unknown][..0] == [];
    assert PresentColumns([unknown]) == [];
    assert PresentColumns(a) + [] == PresentColumns(a);
  }

  /** The keyword's case does not matter: searching for it lower-cased gives the same result. */
  lemma KeywordSearchIgnoresCase(rows: seq<Record>, keyword: string, searchFields: Option<seq<string>>)
    ensures KeywordSearch(rows, keyword, searchFields) == KeywordSearch(rows, Lower(keyword), searchFields)
  {
    LowerIdempotent(keyword);
    var cols := PresentColumns(RequestedFields(searchFields));
    forall i | 0 <= i < |rows|
      ensures KeywordFilter(cols, keyword)(rows[i]) == KeywordFilter(cols, Lower(keyword))(rows[i])
    {
      forall k | 0 <= k < |cols|
        ensures CellContains(rows[i], cols[k], keyword) == CellContains(rows[i], cols[k], Lower(keyword))
      {
      }
    }
    SelectAgreeing(rows, KeywordFilter(cols, keyword), KeywordFilter(cols, Lower(keyword)));
  }
}
