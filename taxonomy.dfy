/** The category taxonomy and its flattening into a value -> category lookup
    (`ProposalSearcher._create_category_mapping`). */
module Taxonomy {

  /** One JSON object of the taxonomy's `categories` list: its (key, member
      values) items in the object's iteration order. */
  type CategoryGroup = seq<(string, seq<string>)>

  /** The taxonomy document's `categories` list. */
  type Taxonomy = seq<CategoryGroup>

  /** The (value, key) assignments made for one key's member list, in order. */
  function Members(key: string, values: seq<string>): seq<(string, string)>
  {
    seq(|values|, k requires 0 <= k < |values| => (values[k], key))
  }

  /** The (value, key) assignments made for one group, in iteration order. */
  function GroupEntries(group: CategoryGroup): seq<(string, string)>
  {
    if group == [] then []
    else GroupEntries(group[..|group| - 1]) + Members(group[|group| - 1].0, group[|group| - 1].1)
  }

  /** Every (value, key) assignment of the document, in iteration order. */
  function Entries(doc: Taxonomy): seq<(string, string)>
  {
    if doc == [] then []
    else Entries(doc[..|doc| - 1]) + GroupEntries(doc[|doc| - 1])
  }

  /** The dictionary obtained by performing the assignments `d[v] = k` in order. */
  function FromPairs(ps: seq<(string, string)>): map<string, string>
  {
    if ps == [] then map[]
    else FromPairs(ps[..|ps| - 1])[ps[|ps| - 1].0 := ps[|ps| - 1].1]
  }

  /** The value -> category lookup the searcher builds at start-up. */
  function CategoryMapping(doc: Taxonomy): map<string, string>
  {
    FromPairs(Entries(doc))
  }

  /** `_create_category_mapping`: three nested loops filling a dictionary. */
  method CreateCategoryMapping(doc: Taxonomy) returns (mapping: map<string, string>)
    ensures mapping == CategoryMapping(doc)
  {
    mapping := map[];
    for i := 0 to |doc|
      invariant mapping == FromPairs(Entries(doc[..i]))
    {
      var group := doc[i];
      ghost var before := Entries(doc[..i]);
      GroupStep(before, group, 0);
      for j := 0 to |group|
        invariant mapping == FromPairs(before + GroupEntries(group[..j]))
      {
        var key := group[j].0;
        var values := group[j].1;
        ghost var done := before + GroupEntries(group[..j]);
        MemberStep(done, key, values, 0);
        for k := 0 to |values|
          invariant mapping == FromPairs(done + Members(key, values[..k]))
        {
          MemberStep(done, key, values, k + 1);
          mapping := mapping[values[k] := key];
        }
        GroupStep(before, group, j + 1);
      }
      EntriesStep(doc, i + 1);
    }
    EntriesStep(doc, |doc|);
  }

  /** What one pass of the innermost loop adds: the assignment `d[values[k - 1]] = key`. */
  lemma MemberStep(done: seq<(string, string)>, key: string, values: seq<string>, k: nat)
    requires k <= |values|
    ensures k == 0 ==> FromPairs(done + Members(key, values[..k])) == FromPairs(done)
    ensures 0 < k ==> FromPairs(done + Members(key, values[..k])) ==
                      FromPairs(done + Members(key, values[..k - 1]))[values[k - 1] := key]
  {
    MembersPrefix(key, values, k);
    if k == 0 {
      assert done + Members(key, values[..k]) == done;
    } else {
      var prev := done + Members(key, values[..k - 1]);
      assert done + Members(key, values[..k]) == prev + [(values[k - 1], key)];
      FromPairsAppend(prev, (values[k - 1], key));
    }
  }

  /** What one pass of the middle loop adds: the assignments for item `j - 1`. */
  lemma GroupStep(before: seq<(string, string)>, group: CategoryGroup, j: nat)
    requires j <= |group|
    ensures j == 0 ==> before + GroupEntries(group[..j]) == before
    ensures 0 < j ==> before + GroupEntries(group[..j]) ==
                      before + GroupEntries(group[..j - 1]) + Members(group[j - 1].0, group[j - 1].1[..|group[j - 1].1|])
  {
    GroupEntriesPrefix(group, j);
    if 0 < j {
      MembersPrefix(group[j - 1].0, group[j - 1].1, |group[j - 1].1|);
    }
  }

  /** What one pass of the outer loop adds, and that the last pass covers `doc`. */
  lemma EntriesStep(doc: Taxonomy, i: nat)
    requires i <= |doc|
    ensures 0 < i ==> Entries(doc[..i]) == Entries(doc[..i - 1]) + GroupEntries(doc[i - 1][..|doc[i - 1]|])
    ensures i == |doc| ==> doc[..i] == doc
  {
    EntriesPrefix(doc, i);
    if 0 < i {
      GroupEntriesPrefix(doc[i - 1], |doc[i - 1]|);
    }
  }

  lemma FromPairsAppend(ps: seq<(string, string)>, p: (string, string))
    ensures FromPairs(ps + [p]) == FromPairs(ps)[p.0 := p.1]
  {
    assert (ps + [p])[..|ps|] == ps;
  }

  lemma MembersPrefix(key: string, values: seq<string>, k: nat)
    requires k <= |values|
    ensures k == 0 ==> Members(key, values[..k]) == []
    ensures k == |values| ==> values[..k] == values
    ensures 0 < k ==> Members(key, values[..k]) == Members(key, values[..k - 1]) + [(values[k - 1], key)]
  {
  }

  lemma GroupEntriesPrefix(group: CategoryGroup, j: nat)
    requires j <= |group|
    ensures j == 0 ==> GroupEntries(group[..j]) == []
    ensures j == |group| ==> group[..j] == group
    ensures 0 < j ==> GroupEntries(group[..j]) == GroupEntries(group[..j - 1]) + Members(group[j - 1].0, group[j - 1].1)
  {
    if 0 < j {
      assert group[..j][..j - 1] == group[..j - 1];
    }
  }

  lemma EntriesPrefix(doc: Taxonomy, i: nat)
    requires i <= |doc|
    ensures i == |doc| ==> doc[..i] == doc
    ensures 0 < i ==> Entries(doc[..i]) == Entries(doc[..i - 1]) + GroupEntries(doc[i - 1])
  {
    if 0 < i {
      assert doc[..i][..i - 1] == doc[..i - 1];
    }
  }

  /** `v` is listed as a member under some key of some group. */
  predicate Listed(doc: Taxonomy, v: string)
  {
    exists i, j :: 0 <= i < |doc| && 0 <= j < |doc[i]| && v in doc[i][j].1
  }

  /** The keys of a dictionary built by assignments are the assigned values. */
  lemma {:induction false} FromPairsKeys(ps: seq<(string, string)>, v: string)
    ensures v in FromPairs(ps) <==> exists n :: 0 <= n < |ps| && ps[n].0 == v
  {
    if ps != [] {
      var init := ps[..|ps| - 1];
      FromPairsKeys(init, v);
      if exists n :: 0 <= n < |init| && init[n].0 == v {
        var n :| 0 <= n < |init| && init[n].0 == v;
        assert ps[n].0 == v;
      }
      if exists n :: 0 <= n < |ps| && ps[n].0 == v {
        var n :| 0 <= n < |ps| && ps[n].0 == v;
        if n < |ps| - 1 {
          assert init[n].0 == v;
        }
      }
    }
  }

  /** Last write wins: the dictionary holds, for `v`, the key of the last
      assignment to `v`. */
  lemma {:induction false} FromPairsLastWins(ps: seq<(string, string)>, n: nat)
    requires n < |ps|
    requires forall m :: n < m < |ps| ==> ps[m].0 != ps[n].0
    ensures ps[n].0 in FromPairs(ps) && FromPairs(ps)[ps[n].0] == ps[n].1
  {
    if n < |ps| - 1 {
      FromPairsLastWins(ps[..|ps| - 1], n);
    }
  }

  lemma MembersMembership(key: string, values: seq<string>, v: string, k: string)
    ensures (v, k) in Members(key, values) <==> key == k && v in values
  {
    if v in values && key == k {
      var n :| 0 <= n < |values| && values[n] == v;
      assert Members(key, values)[n] == (v, k);
    }
  }

  /** The assignments of one group come from its (key, values) items. */
  lemma {:induction false} GroupEntriesMembership(group: CategoryGroup, v: string, key: string)
    ensures (v, key) in GroupEntries(group) <==>
            exists j :: 0 <= j < |group| && group[j].0 == key && v in group[j].1
  {
    if group != [] {
      var init := group[..|group| - 1];
      GroupEntriesMembership(init, v, key);
      var last := group[|group| - 1];
      MembersMembership(last.0, last.1, v, key);
      if exists j :: 0 <= j < |init| && init[j].0 == key && v in init[j].1 {
        var j :| 0 <= j < |init| && init[j].0 == key && v in init[j].1;
        assert group[j] == init[j];
      }
      if exists j :: 0 <= j < |group| && group[j].0 == key && v in group[j].1 {
        var j :| 0 <= j < |group| && group[j].0 == key && v in group[j].1;
        if j < |init| {
          assert init[j] == group[j];
        }
      }
    }
  }

  /** The document's assignments come from its groups' (key, values) items. */
  lemma {:induction false} EntriesMembership(doc: Taxonomy, v: string, key: string)
    ensures (v, key) in Entries(doc) <==>
            exists i, j :: 0 <= i < |doc| && 0 <= j < |doc[i]| && doc[i][j].0 == key && v in doc[i][j].1
  {
    if doc != [] {
      var init := doc[..|doc| - 1];
      EntriesMembership(init, v, key);
      GroupEntriesMembership(doc[|doc| - 1], v, key);
      if exists i, j :: 0 <= i < |init| && 0 <= j < |init[i]| && init[i][j].0 == key && v in init[i][j].1 {
        var i, j :| 0 <= i < |init| && 0 <= j < |init[i]| && init[i][j].0 == key && v in init[i][j].1;
        assert doc[i] == init[i];
      }
      if exists i, j :: 0 <= i < |doc| && 0 <= j < |doc[i]| && doc[i][j].0 == key && v in doc[i][j].1 {
        var i, j :| 0 <= i < |doc| && 0 <= j < |doc[i]| && doc[i][j].0 == key && v in doc[i][j].1;
        if i < |init| {
          assert init[i] == doc[i];
        }
      }
    }
  }

  /** Every value listed anywhere in the document is a key of the mapping, and
      the mapping has no other keys. */
  lemma MappingKeys(doc: Taxonomy, v: string)
    ensures v in CategoryMapping(doc) <==> Listed(doc, v)
  {
    var ps := Entries(doc);
    FromPairsKeys(ps, v);
    if v in CategoryMapping(doc) {
      var n :| 0 <= n < |ps| && ps[n].0 == v;
      EntriesMembership(doc, v, ps[n].1);
    }
    if Listed(doc, v) {
      var i, j :| 0 <= i < |doc| && 0 <= j < |doc[i]| && v in doc[i][j].1;
      EntriesMembership(doc, v, doc[i][j].0);
      var n :| 0 <= n < |ps| && ps[n] == (v, doc[i][j].0);
    }
  }

  /** Last write wins: if the `n`-th assignment, in iteration order, is the
      last one to value `v`, the mapping sends `v` to that assignment's key. */
  lemma MappingLastWins(doc: Taxonomy, n: nat)
    requires n < |Entries(doc)|
    requires forall m :: n < m < |Entries(doc)| ==> Entries(doc)[m].0 != Entries(doc)[n].0
    ensures Entries(doc)[n].0 in CategoryMapping(doc)
    ensures CategoryMapping(doc)[Entries(doc)[n].0] == Entries(doc)[n].1
  {
    FromPairsLastWins(Entries(doc), n);
  }

  /** No value is listed twice in the whole document. */
  predicate MembersDistinct(doc: Taxonomy)
  {
    forall m, n :: 0 <= m < n < |Entries(doc)| ==> Entries(doc)[m].0 != Entries(doc)[n].0
  }

  /** When no value is listed twice, each value maps to exactly the key that
      lists it. */
  lemma MappingOfDistinctMembers(doc: Taxonomy, i: nat, j: nat, v: string)
    requires MembersDistinct(doc)
    requires i < |doc| && j < |doc[i]| && v in doc[i][j].1
    ensures v in CategoryMapping(doc) && CategoryMapping(doc)[v] == doc[i][j].0
  {
    var ps := Entries(doc);
    EntriesMembership(doc, v, doc[i][j].0);
    var n :| 0 <= n < |ps| && ps[n] == (v, doc[i][j].0);
    FromPairsLastWins(ps, n);
  }

  /** A value listed under "A" and then again under "B" ends up in "B". */
  lemma LaterGroupWins()
    ensures CategoryMapping([[("A", ["x"])], [("B", ["x"])]])["x"] == "B"
  {
    var doc: Taxonomy := [[("A", ["x"])], [("B", ["x"])]];
    assert doc[..1] == [[("A", ["x"])]];
    assert Entries(doc) == [("x", "A"), ("x", "B")];
  }
}
