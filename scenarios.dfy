/** Worked examples of the searches on a two-row table. */
module Scenarios {
  import opened Wrappers
  import opened Text
  import opened Proposals

  const RoadRepair: Record :=
    Record(Some("A"), Some("Alice"), Some("Approved"), Some("Dept1"), None, Some("road repair"))
  const NoContent: Record :=
    Record(Some("B"), Some("Bob"), Some("Rejected"), Some("Dept2"), None, None)

  /** Filtering on category "A" keeps only the first row. */
  lemma CategoryFilterExample()
    ensures Select([RoadRepair, NoContent], ProposalFilter(Some("A"), None, None, None)) == [RoadRepair]
  {
    var keep := ProposalFilter(Some("A"), None, None, None);
    assert keep(RoadRepair);
    assert !keep(NoContent);
    assert [RoadRepair, NoContent][1..] == [NoContent];
    assert Select([NoContent], keep) == [] + Select([], keep);
    assert Select([RoadRepair, NoContent], keep) == [RoadRepair] + Select([NoContent], keep);
  }

  /** Searching the content for "repair" finds the first row; the second,
      whose content is empty, is never found. */
  lemma KeywordExample()
    ensures KeywordSearch([RoadRepair, NoContent], "repair", None) == Ok([RoadRepair])
  {
    var rows := [RoadRepair, NoContent];
    var keep := ContentFilter("repair");
    KeywordSearchDefaultsToContent(rows, "repair");
    RepairFound();
    assert keep(RoadRepair);
    assert !keep(NoContent);
    assert rows[1..] == [NoContent];
    assert Select([NoContent], keep) == [] + Select([], keep);
    assert Select(rows, keep) == [RoadRepair] + Select([NoContent], keep);
    assert Select(rows, keep) == [RoadRepair];
  }

  lemma RepairFound()
    ensures ContainsIgnoringCase("road repair", "repair")
  {
    assert Lower("road repair")[5..11] == Lower("repair");
    ContainsWitness(Lower("road repair"), Lower("repair"), 5);
  }

  /** Case is ignored: "budget" is found in "Budget review". */
  lemma CaseInsensitiveExample()
    ensures ContainsIgnoringCase("Budget review", "budget")
  {
    assert Lower("Budget review")[0..6] == "budget";
    ContainsWitness(Lower("Budget review"), Lower("budget"), 0);
  }
}
