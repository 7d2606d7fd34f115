/** The two ad-hoc queries over the graph built by generate_graph: the
    journal(s) naming the most distinct drugs, and the drugs related to a
    target drug through the journals of its PubMed-only entries. */
module Queries {
  import opened Wrappers
  import opened Tables
  import opened Graph

  /** One (drug, journal entry) pair of the graph, in the order the nested
      `for item in data_: for journal in item['journals']` visits them. */
  datatype Link = Link(drug: Cell, entry: JournalEntry)

  function NodeLinks(n: DrugNode): (r: seq<Link>)
    ensures |r| == |n.journals|
    ensures forall k :: 0 <= k < |r| ==> r[k] == Link(n.drug, n.journals[k])
  {
    seq(|n.journals|, k requires 0 <= k < |n.journals| => Link(n.drug, n.journals[k]))
  }

  function Links(g: seq<DrugNode>): seq<Link> {
    if g == [] then [] else Links(g[..|g| - 1]) + NodeLinks(g[|g| - 1])
  }

  /** Every pair of the graph, and only those, is a link. */
  lemma LinksSpec(g: seq<DrugNode>, l: Link)
    ensures l in Links(g) <==> exists i, k :: 0 <= i < |g| && 0 <= k < |g[i].journals| && l == Link(g[i].drug, g[i].journals[k])
  {
    if l in Links(g) {
      LinkFromLinks(g, l);
    }
    if exists i, k :: 0 <= i < |g| && 0 <= k < |g[i].journals| && l == Link(g[i].drug, g[i].journals[k]) {
      var i, k :| 0 <= i < |g| && 0 <= k < |g[i].journals| && l == Link(g[i].drug, g[i].journals[k]);
      LinkInLinks(g, i, k);
    }
  }

  lemma {:induction false} LinkInLinks(g: seq<DrugNode>, i: nat, k: nat)
    requires i < |g| && k < |g[i].journals|
    ensures Link(g[i].drug, g[i].journals[k]) in Links(g)
  {
    var n := |g| - 1;
    if i < n {
      LinkInLinks(g[..n], i, k);
      assert g[..n][i] == g[i];
    } else {
      assert NodeLinks(g[n])[k] == Link(g[i].drug, g[i].journals[k]);
    }
  }

  lemma {:induction false} LinkFromLinks(g: seq<DrugNode>, l: Link)
    requires l in Links(g)
    ensures exists i, k :: 0 <= i < |g| && 0 <= k < |g[i].journals| && l == Link(g[i].drug, g[i].journals[k])
  {
    var n := |g| - 1;
    if l in Links(g[..n]) {
      LinkFromLinks(g[..n], l);
      var i, k :| 0 <= i < n && 0 <= k < |g[..n][i].journals| && l == Link(g[..n][i].drug, g[..n][i].journals[k]);
      assert g[..n][i] == g[i];
    } else {
      var k :| 0 <= k < |NodeLinks(g[n])| && NodeLinks(g[n])[k] == l;
      assert l == Link(g[n].drug, g[n].journals[k]);
    }
  }

  lemma LinksStep(g: seq<DrugNode>, i: nat)
    requires i < |g|
    ensures Links(g[..i + 1]) == Links(g[..i]) + NodeLinks(g[i])
  {
    assert g[..i + 1][..i] == g[..i];
  }

  // ---------------------------------------------------------------------
  // extract_journal_with_most_drugs (utils/transform.py:186-212)

  /** The journal titles appearing in the links. */
  function Journals(ls: seq<Link>): set<Cell> {
    set l | l in ls :: l.entry.journal
  }

  /** The distinct drugs linked to journal title j. */
  function DrugsUnder(ls: seq<Link>, j: Cell): set<Cell> {
    set l | l in ls && l.entry.journal == j :: l.drug
  }

  /** A journal title of the graph is linked to at least one drug. */
  lemma DrugsUnderNonEmpty(ls: seq<Link>, j: Cell)
    requires j in Journals(ls)
    ensures |DrugsUnder(ls, j)| >= 1
  {
    var l :| l in ls && l.entry.journal == j;
    assert l.drug in DrugsUnder(ls, j);
  }

  lemma JournalsAppend(ls: seq<Link>, l: Link)
    ensures Journals(ls + [l]) == Journals(ls) + {l.entry.journal}
  {
    assert forall x :: x in ls + [l] <==> x in ls || x == l;
  }

  lemma DrugsUnderAppend(ls: seq<Link>, l: Link, j: Cell)
    ensures DrugsUnder(ls + [l], j) == DrugsUnder(ls, j) + (if l.entry.journal == j then {l.drug} else {})
  {
    assert forall x :: x in ls + [l] <==> x in ls || x == l;
  }

  /** The journal titles of the links in order of first appearance: the
      order in which a dict acquires them as keys. */
  function JournalOrder(ls: seq<Link>): seq<Cell> {
    if ls == [] then []
    else
      var order := JournalOrder(ls[..|ls| - 1]);
      var j := ls[|ls| - 1].entry.journal;
      if j in order then order else order + [j]
  }

  /** journal_to_drugs as a value: each journal title of the links, mapped
      to its distinct drugs. */
  function JournalIndex(ls: seq<Link>): map<Cell, set<Cell>> {
    map j | j in Journals(ls) :: DrugsUnder(ls, j)
  }

  /** journal_to_drugs after the map over the first links: a key per
      journal title seen, holding its distinct drugs, with the keys listed
      in insertion order. */
  ghost predicate Indexed(ls: seq<Link>, m: map<Cell, set<Cell>>, order: seq<Cell>) {
    && (forall j :: j in m <==> j in Journals(ls))
    && (forall j :: j in m ==> m[j] == DrugsUnder(ls, j))
    && (forall j :: j in order <==> j in m)
    && (forall a, b :: 0 <= a < b < |order| ==> order[a] != order[b])
    && order == JournalOrder(ls)
  }

  /** Fills journal_to_drugs from the (journal, drug) pairs, as the map
      over the flattened pairs does with defaultdict(set). */
  method IndexJournals(links: seq<Link>) returns (journalToDrugs: map<Cell, set<Cell>>, order: seq<Cell>)
    ensures Indexed(links, journalToDrugs, order)
  {
    journalToDrugs := map[];
    order := [];
    var i := 0;
    while i < |links|
      invariant 0 <= i <= |links|
      invariant Indexed(links[..i], journalToDrugs, order)
    {
      var l := links[i];
      assert links[..i + 1] == links[..i] + [l];
      IndexStep(links[..i], l, journalToDrugs, order);
      if l.entry.journal in journalToDrugs {
        journalToDrugs := journalToDrugs[l.entry.journal := journalToDrugs[l.entry.journal] + {l.drug}];
      } else {
        journalToDrugs := journalToDrugs[l.entry.journal := {l.drug}];
        order := order + [l.entry.journal];
      }
      i := i + 1;
    }
    assert links[..i] == links;
  }

  /** One more link: its drug joins its journal's set, and a new journal
      joins the key order at the end. */
  lemma IndexStep(ls: seq<Link>, l: Link, m: map<Cell, set<Cell>>, order: seq<Cell>)
    requires Indexed(ls, m, order)
    ensures l.entry.journal in m ==> Indexed(ls + [l], m[l.entry.journal := m[l.entry.journal] + {l.drug}], order)
    ensures l.entry.journal !in m ==> Indexed(ls + [l], m[l.entry.journal := {l.drug}], order + [l.entry.journal])
  {
    JournalOrderAppend(ls, l);
    JournalsAppend(ls, l);
    forall j ensures DrugsUnder(ls + [l], j) == DrugsUnder(ls, j) + (if l.entry.journal == j then {l.drug} else {}) {
      DrugsUnderAppend(ls, l, j);
    }
    if l.entry.journal in m {
      IndexKnownJournal(ls, l, m, order);
    } else {
      IndexNewJournal(ls, l, m, order);
    }
  }

  lemma IndexKnownJournal(ls: seq<Link>, l: Link, m: map<Cell, set<Cell>>, order: seq<Cell>)
    requires Indexed(ls, m, order) && l.entry.journal in m
    requires Journals(ls + [l]) == Journals(ls) + {l.entry.journal}
    requires forall j :: DrugsUnder(ls + [l], j) == DrugsUnder(ls, j) + (if l.entry.journal == j then {l.drug} else {})
    requires JournalOrder(ls + [l]) == order
    ensures Indexed(ls + [l], m[l.entry.journal := m[l.entry.journal] + {l.drug}], order)
  {
  }

  lemma IndexNewJournal(ls: seq<Link>, l: Link, m: map<Cell, set<Cell>>, order: seq<Cell>)
    requires Indexed(ls, m, order) && l.entry.journal !in m
    requires Journals(ls + [l]) == Journals(ls) + {l.entry.journal}
    requires forall j :: DrugsUnder(ls + [l], j) == DrugsUnder(ls, j) + (if l.entry.journal == j then {l.drug} else {})
    requires JournalOrder(ls + [l]) == order + [l.entry.journal]
    ensures Indexed(ls + [l], m[l.entry.journal := {l.drug}], order + [l.entry.journal])
  {
  }

  lemma JournalOrderAppend(ls: seq<Link>, l: Link)
    ensures JournalOrder(ls + [l]) == if l.entry.journal in JournalOrder(ls) then JournalOrder(ls) else JournalOrder(ls) + [l.entry.journal]
  {
    assert (ls + [l])[..|ls|] == ls;
  }

  /** The map a finished index holds is journal_to_drugs as a value. */
  lemma IndexedIsIndex(ls: seq<Link>, m: map<Cell, set<Cell>>, order: seq<Cell>)
    requires Indexed(ls, m, order)
    ensures m == JournalIndex(ls)
  {
  }

  /** reduce(lambda acc, item: max(acc, len(item[1])), items, 0). */
  method MaxDrugCount(journalToDrugs: map<Cell, set<Cell>>, order: seq<Cell>) returns (count: nat)
    requires forall j :: j in order ==> j in journalToDrugs
    ensures forall t :: 0 <= t < |order| ==> |journalToDrugs[order[t]]| <= count
    ensures order == [] ==> count == 0
    ensures order != [] ==> exists t :: 0 <= t < |order| && |journalToDrugs[order[t]]| == count
  {
    count := 0;
    var k := 0;
    while k < |order|
      invariant 0 <= k <= |order|
      invariant forall t :: 0 <= t < k ==> |journalToDrugs[order[t]]| <= count
      invariant k == 0 ==> count == 0
      invariant k > 0 ==> exists t :: 0 <= t < k && |journalToDrugs[order[t]]| == count
    {
      var size := |journalToDrugs[order[k]]|;
      if size > count {
        count := size;
      }
      k := k + 1;
    }
  }

  /** The titles of order whose drug set has count elements, in the order
      of order. */
  function WithCount(order: seq<Cell>, m: map<Cell, set<Cell>>, count: nat): seq<Cell>
    requires forall j :: j in order ==> j in m
  {
    if order == [] then []
    else
      var j := order[|order| - 1];
      WithCount(order[..|order| - 1], m, count) + (if |m[j]| == count then [j] else [])
  }

  /** [journal for journal, drugs in items if len(drugs) == count]. */
  method JournalsWithCount(journalToDrugs: map<Cell, set<Cell>>, order: seq<Cell>, count: nat) returns (journals: seq<Cell>)
    requires forall j :: j in order ==> j in journalToDrugs
    requires forall a, b :: 0 <= a < b < |order| ==> order[a] != order[b]
    ensures journals == WithCount(order, journalToDrugs, count)
    ensures forall j :: j in journals <==> j in order && |journalToDrugs[j]| == count
    ensures forall a, b :: 0 <= a < b < |journals| ==> journals[a] != journals[b]
  {
    journals := [];
    var k := 0;
    while k < |order|
      invariant 0 <= k <= |order|
      invariant journals == WithCount(order[..k], journalToDrugs, count)
      invariant forall j :: j in journals <==> j in order[..k] && |journalToDrugs[j]| == count
      invariant forall a, b :: 0 <= a < b < |journals| ==> journals[a] != journals[b]
    {
      assert order[..k + 1] == order[..k] + [order[k]];
      assert order[..k + 1][..k] == order[..k];
      if |journalToDrugs[order[k]]| == count {
        assert order[k] !in order[..k];
        journals := journals + [order[k]];
      }
      k := k + 1;
    }
    assert order[..k] == order;
  }

  /** The answer of the query: the journal titles and their number of
      distinct drugs (the message text around them is not modelled). The
      count is the largest number of distinct drugs any journal title is
      linked to, 0 for a graph without journals, and the titles are all
      those reaching it, ties included, each once. */
  method ExtractJournalWithMostDrugs(g: seq<DrugNode>) returns (journals: seq<Cell>, count: nat)
    ensures forall j :: j in Journals(Links(g)) ==> |DrugsUnder(Links(g), j)| <= count
    ensures forall j :: j in journals <==> j in Journals(Links(g)) && |DrugsUnder(Links(g), j)| == count
    ensures count == 0 <==> Journals(Links(g)) == {}
    ensures Journals(Links(g)) != {} ==> journals != []
    ensures forall a, b :: 0 <= a < b < |journals| ==> journals[a] != journals[b]
    ensures forall j :: j in JournalOrder(Links(g)) ==> j in JournalIndex(Links(g))
    ensures journals == WithCount(JournalOrder(Links(g)), JournalIndex(Links(g)), count)
  {
    var links := Links(g);
    var journalToDrugs, order := IndexJournals(links);
    IndexedIsIndex(links, journalToDrugs, order);
    count := MaxDrugCount(journalToDrugs, order);
    journals := JournalsWithCount(journalToDrugs, order, count);
    forall j | j in Journals(links) ensures |DrugsUnder(links, j)| <= count {
      var t :| 0 <= t < |order| && order[t] == j;
    }
    if Journals(links) != {} {
      var j :| j in Journals(links);
      DrugsUnderNonEmpty(links, j);
      assert order != [] by {
        assert j in order;
      }
      var t :| 0 <= t < |order| && |journalToDrugs[order[t]]| == count;
      assert order[t] in journals;
    }
  }

  /** A graph with no journal entries gives a count of 0 and no journal. */
  lemma NoJournalsNoEntries(g: seq<DrugNode>)
    requires forall i :: 0 <= i < |g| ==> g[i].journals == []
    ensures Journals(Links(g)) == {}
  {
    forall l | l in Links(g) ensures false {
      LinksSpec(g, l);
    }
  }

  // ---------------------------------------------------------------------
  // find_related_drugs_not_in_clinical_trials (utils/transform.py:218-239)

  /** The journal titles of the target drug's entries that have no
      clinical_trial key, that is, entries created by a PubMed article. */
  function TargetJournals(target: Cell, g: seq<DrugNode>): set<Cell> {
    set l | l in Links(g) && l.drug == target && l.entry.clinicalTrial.None? :: l.entry.journal
  }

  /** The drugs with an entry under one of the journals tj. */
  function LinkedTo(ls: seq<Link>, tj: set<Cell>): set<Cell> {
    set l | l in ls && l.entry.journal in tj :: l.drug
  }

  lemma LinkedToAppend(ls: seq<Link>, l: Link, tj: set<Cell>)
    ensures LinkedTo(ls + [l], tj) == LinkedTo(ls, tj) + (if l.entry.journal in tj then {l.drug} else {})
  {
    assert forall x :: x in ls + [l] <==> x in ls || x == l;
  }

  /** The drugs, other than the target, with an entry under one of the
      target's PubMed journals. */
  function RelatedDrugs(target: Cell, g: seq<DrugNode>): set<Cell> {
    LinkedTo(Links(g), TargetJournals(target, g)) - {target}
  }

  /** A Python value that line 231 compares: the text 'clinical_trial'
      and the journal records of item['journals']. */
  datatype PyValue = Text(s: string) | Record(entry: JournalEntry)

  function Records(es: seq<JournalEntry>): (r: seq<PyValue>)
    ensures |r| == |es|
    ensures forall k :: 0 <= k < |r| ==> r[k] == Record(es[k])
  {
    seq(|es|, k requires 0 <= k < |es| => Record(es[k]))
  }

  /** Python's `x in xs` on a list: some element equals x. */
  predicate InList(x: PyValue, xs: seq<PyValue>) {
    exists k :: 0 <= k < |xs| && xs[k] == x
  }

  /** `'clinical_trial' in item['journals']` searches a list of journal
      records for a text, which no record equals: the test is always false,
      so no drug is ever put aside as linked to clinical trials. */
  lemma ClinicalTrialTestNeverHolds(es: seq<JournalEntry>)
    ensures !InList(Text("clinical_trial"), Records(es))
  {
  }

  /** The query: each related drug once, in no promised order. Drugs in
      unrelated_drugs would be dropped, but that set stays empty. */
  method FindRelatedDrugsNotInClinicalTrials(target: Cell, g: seq<DrugNode>) returns (r: seq<Cell>)
    ensures forall d :: d in r <==> d in RelatedDrugs(target, g)
    ensures forall a, b :: 0 <= a < b < |r| ==> r[a] != r[b]
  {
    var tj := TargetJournals(target, g);
    var related: set<Cell> := {};
    var unrelated: set<Cell> := {};
    var i := 0;
    while i < |g|
      invariant 0 <= i <= |g|
      invariant related == LinkedTo(Links(g[..i]), tj)
      invariant unrelated == {}
    {
      var item := g[i];
      LinksStep(g, i);
      var k := 0;
      while k < |item.journals|
        invariant 0 <= k <= |item.journals|
        invariant related == LinkedTo(Links(g[..i]) + NodeLinks(item)[..k], tj)
        invariant unrelated == {}
      {
        var journal := item.journals[k];
        assert NodeLinks(item)[..k + 1] == NodeLinks(item)[..k] + [Link(item.drug, journal)];
        assert Links(g[..i]) + NodeLinks(item)[..k + 1] == (Links(g[..i]) + NodeLinks(item)[..k]) + [Link(item.drug, journal)];
        LinkedToAppend(Links(g[..i]) + NodeLinks(item)[..k], Link(item.drug, journal), tj);
        if journal.journal in tj {
          ClinicalTrialTestNeverHolds(item.journals);
          if InList(Text("clinical_trial"), Records(item.journals)) {
            unrelated := unrelated + {item.drug};
          }
          related := related + {item.drug};
        }
        k := k + 1;
      }
      assert NodeLinks(item)[..k] == NodeLinks(item);
      i := i + 1;
    }
    assert g[..i] == g;
    related := related - {target};
    r := Remaining(related, unrelated);
  }

  /** [element for element in related if element not in unrelated]: the
      set's elements, each once, in no promised order. */
  method Remaining(related: set<Cell>, unrelated: set<Cell>) returns (r: seq<Cell>)
    ensures forall d :: d in r <==> d in related && d !in unrelated
    ensures forall a, b :: 0 <= a < b < |r| ==> r[a] != r[b]
  {
    r := [];
    var rest := related;
    while rest != {}
      invariant rest <= related
      invariant forall d :: d in r <==> d in related && d !in rest && d !in unrelated
      invariant forall a, b :: 0 <= a < b < |r| ==> r[a] != r[b]
      decreases |rest|
    {
      var d :| d in rest;
      if d !in unrelated {
        r := r + [d];
      }
      rest := rest - {d};
    }
  }

  /** A drug whose only entry under the target's journal is a
      clinical-trial entry is still reported as related. */
  lemma TrialLinkedDrugStillRelated()
    ensures var trial := JournalEntry(Some("j"), Some("01/01/2020"), Some([Mention("NCT1", "b study", Some("01/01/2020"))]), []);
            var article := JournalEntry(Some("j"), Some("01/01/2020"), None, [Mention("1", "a study", Some("01/01/2020"))]);
            Some("b") in RelatedDrugs(Some("a"), [DrugNode(Some("a"), [article]), DrugNode(Some("b"), [trial])])
  {
    var trial := JournalEntry(Some("j"), Some("01/01/2020"), Some([Mention("NCT1", "b study", Some("01/01/2020"))]), []);
    var article := JournalEntry(Some("j"), Some("01/01/2020"), None, [Mention("1", "a study", Some("01/01/2020"))]);
    var g := [DrugNode(Some("a"), [article]), DrugNode(Some("b"), [trial])];
    LinksSpec(g, Link(Some("a"), article));
    assert g[0].journals[0] == article;
    assert Some("j") in TargetJournals(Some("a"), g);
    LinksSpec(g, Link(Some("b"), trial));
    assert g[1].journals[0] == trial;
    assert Link(Some("b"), trial) in Links(g);
  }
}
