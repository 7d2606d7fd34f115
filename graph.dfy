/** generate_graph: for every drug, the journals that mention it, each
    with the PubMed articles and the clinical trials that name the drug in
    their title. utils/transform.py matches the title as it is; transform.py
    lowercases it first. Both are the same functions under a Variant flag. */
module Graph {
  import opened Wrappers
  import opened Errors
  import opened Text
  import opened Tables

  datatype Variant = Current | Legacy

  /** One publication under a journal: {'id', 'title', 'date'}. */
  datatype Mention = Mention(id: string, title: string, date: Cell)

  /** One value of journals_dict: {'title': journal, 'date', 'pubmed', and
      'clinical_trial' only when a clinical trial created the entry}. */
  datatype JournalEntry = JournalEntry(journal: Cell, date: Cell, clinicalTrial: Option<seq<Mention>>, pubmed: seq<Mention>)

  /** One element of the result list: {'drug', 'journals'}. */
  datatype DrugNode = DrugNode(drug: Cell, journals: seq<JournalEntry>)

  /** row[c]: KeyError when the table has no such column. */
  function Field(r: Row, c: string): (v: Result<Cell, PyError>)
    ensures v.Err? <==> c !in r
    ensures v.Err? ==> v.error == KeyError(c)
    ensures v.Ok? ==> v.value == Get(r, c)
  {
    if c in r then Ok(r[c]) else Err(KeyError(c))
  }

  function MatchText(v: Variant, title: string): string {
    if v == Current then title else Lower(title)
  }

  /** `drug in row['title']`, or `drug in row['title'].lower()` in the
      legacy variant: a null title has no lower(), and `in` refuses a null
      on either side. */
  function Mentions(v: Variant, drug: Cell, title: Cell): (r: Result<bool, PyError>)
    ensures r.Ok? <==> title.Some? && drug.Some?
    ensures r.Ok? ==> (r.value <==> Contains(MatchText(v, title.value), drug.value))
  {
    if title.None? then Err(if v == Current then TypeError else AttributeError("lower"))
    else if drug.None? then Err(TypeError)
    else Ok(Contains(MatchText(v, title.value), drug.value))
  }

  /** str(int(row['id'])) for a PubMed article. */
  function PubmedId(id: Cell): Result<string, PyError> {
    if id.None? then Err(TypeError) else IntText(id.value)
  }

  /** str(row['id']) for a clinical trial: a null id prints as "None". */
  function TrialId(id: Cell): string {
    if id.None? then "None" else id.value
  }

  /** A PubMed article that names the drug: its journal key and its mention. */
  datatype Hit = Hit(journal: Cell, date: Cell, mention: Mention)

  /** What one PubMed row contributes for one drug: nothing, a hit, or the
      exception the loop body raises on it. */
  function PubmedRow(v: Variant, drug: Cell, r: Row): Result<Option<Hit>, PyError> {
    var title :- Field(r, "title");
    var hit :- Mentions(v, drug, title);
    if !hit then Ok(None)
    else
      var journal :- Field(r, "journal");
      var date :- Field(r, "date");
      var id :- Field(r, "id");
      var idText :- PubmedId(id);
      Ok(Some(Hit(journal, date, Mention(idText, title.value, date))))
  }

  /** Position of the entry with the key (journal, date), if there is one. */
  function FindKey(es: seq<JournalEntry>, journal: Cell, date: Cell): (i: Option<nat>)
    ensures i.Some? ==> i.value < |es| && es[i.value].journal == journal && es[i.value].date == date
    ensures i.None? ==> forall k :: 0 <= k < |es| ==> !(es[k].journal == journal && es[k].date == date)
  {
    if es == [] then None
    else if es[0].journal == journal && es[0].date == date then Some(0)
    else
      var i := FindKey(es[1..], journal, date);
      assert forall k :: 1 <= k < |es| ==> es[k] == es[1..][k - 1];
      if i.None? then None else Some(i.value + 1)
  }

  /** No two entries share a (journal, date) key, as in a dict. */
  predicate KeysDistinct(es: seq<JournalEntry>) {
    forall i, j :: 0 <= i < j < |es| ==> !(es[i].journal == es[j].journal && es[i].date == es[j].date)
  }

  /** In a dict the key found is the only one: every other entry differs. */
  lemma FindKeyUnique(es: seq<JournalEntry>, journal: Cell, date: Cell, k: nat)
    requires KeysDistinct(es) && k < |es| && es[k].journal == journal && es[k].date == date
    ensures FindKey(es, journal, date) == Some(k)
  {
  }

  /** Lines 144-155: create the entry for a new key, then append the mention. */
  function AddPubmed(es: seq<JournalEntry>, h: Hit): seq<JournalEntry> {
    var i := FindKey(es, h.journal, h.date);
    if i.None? then es + [JournalEntry(h.journal, h.date, None, [h.mention])]
    else es[i.value := es[i.value].(pubmed := es[i.value].pubmed + [h.mention])]
  }

  /** The body of the PubMed loop on one row, for every row in order. */
  function PubmedResults(v: Variant, drug: Cell, rows: seq<Row>): (rs: seq<Result<Option<Hit>, PyError>>)
    ensures |rs| == |rows|
    ensures forall k :: 0 <= k < |rows| ==> rs[k] == PubmedRow(v, drug, rows[k])
  {
    seq(|rows|, k requires 0 <= k < |rows| => PubmedRow(v, drug, rows[k]))
  }

  /** The PubMed loop, fed with what its body yields on each row: the
      first exception ends it, each hit goes into journals_dict. */
  function CollectPubmed(rs: seq<Result<Option<Hit>, PyError>>): (r: Result<seq<JournalEntry>, PyError>)
    ensures r.Ok? ==> KeysDistinct(r.value)
    ensures r.Ok? ==> forall k :: 0 <= k < |r.value| ==> r.value[k].clinicalTrial.None? && r.value[k].pubmed != []
  {
    if rs == [] then Ok([])
    else
      var es :- CollectPubmed(rs[..|rs| - 1]);
      var h :- rs[|rs| - 1];
      if h.None? then Ok(es) else Ok(AddPubmed(es, h.value))
  }

  /** The PubMed loop for one drug. */
  function ScanPubmed(v: Variant, drug: Cell, rows: seq<Row>): Result<seq<JournalEntry>, PyError> {
    CollectPubmed(PubmedResults(v, drug, rows))
  }

  /** A clinical trial that names the drug: its journal key, its title,
      and the outcome of reading its id (read only once the entry is found). */
  datatype TrialHit = TrialHit(journal: Cell, date: Cell, title: string, id: Result<Cell, PyError>)

  function TrialRow(v: Variant, drug: Cell, r: Row): Result<Option<TrialHit>, PyError> {
    var title :- Field(r, "title");
    var hit :- Mentions(v, drug, title);
    if !hit then Ok(None)
    else
      var journal :- Field(r, "journal");
      var date :- Field(r, "date");
      Ok(Some(TrialHit(journal, date, title.value, Field(r, "id"))))
  }

  function TrialResults(v: Variant, drug: Cell, rows: seq<Row>): (rs: seq<Result<Option<TrialHit>, PyError>>)
    ensures |rs| == |rows|
    ensures forall k :: 0 <= k < |rows| ==> rs[k] == TrialRow(v, drug, rows[k])
  {
    seq(|rows|, k requires 0 <= k < |rows| => TrialRow(v, drug, rows[k]))
  }

  /** Lines 160-172: a new key gets an entry with an empty clinical_trial
      list; appending to an entry that a PubMed article created raises
      KeyError('clinical_trial'), since that entry has no such list. */
  function AddTrial(es: seq<JournalEntry>, h: TrialHit): Result<seq<JournalEntry>, PyError> {
    var i := FindKey(es, h.journal, h.date);
    if i.Some? && es[i.value].clinicalTrial.None? then Err(KeyError("clinical_trial"))
    else
      var id :- h.id;
      var m := Mention(TrialId(id), h.title, h.date);
      if i.None? then Ok(es + [JournalEntry(h.journal, h.date, Some([m]), [])])
      else Ok(es[i.value := es[i.value].(clinicalTrial := Some(es[i.value].clinicalTrial.value + [m]))])
  }

  /** The clinical-trials loop, starting from the PubMed entries es0. */
  function CollectTrials(es0: seq<JournalEntry>, rs: seq<Result<Option<TrialHit>, PyError>>): Result<seq<JournalEntry>, PyError> {
    if rs == [] then Ok(es0)
    else
      var es :- CollectTrials(es0, rs[..|rs| - 1]);
      var h :- rs[|rs| - 1];
      if h.None? then Ok(es) else AddTrial(es, h.value)
  }

  function ScanTrials(v: Variant, drug: Cell, es0: seq<JournalEntry>, rows: seq<Row>): Result<seq<JournalEntry>, PyError> {
    CollectTrials(es0, TrialResults(v, drug, rows))
  }

  /** journals_dict.values() for one drug. */
  function DrugJournals(v: Variant, drug: Cell, pubmed: seq<Row>, trials: seq<Row>): Result<seq<JournalEntry>, PyError> {
    var es :- ScanPubmed(v, drug, pubmed);
    ScanTrials(v, drug, es, trials)
  }

  // ---------------------------------------------------------------------
  // What the loops compute, stated without the dict

  /** The PubMed hits, in row order. */
  function Hits(rs: seq<Result<Option<Hit>, PyError>>): seq<Hit> {
    if rs == [] then []
    else
      var r := rs[|rs| - 1];
      Hits(rs[..|rs| - 1]) + (if r.Ok? && r.value.Some? then [r.value.value] else [])
  }

  /** The mentions of the hits whose key is (journal, date), in order. */
  function MentionsAt(hits: seq<Hit>, journal: Cell, date: Cell): seq<Mention> {
    if hits == [] then []
    else
      var h := hits[|hits| - 1];
      MentionsAt(hits[..|hits| - 1], journal, date) + (if h.journal == journal && h.date == date then [h.mention] else [])
  }

  lemma {:induction false} MentionsAtNone(hits: seq<Hit>, journal: Cell, date: Cell)
    requires forall h :: h in hits ==> !(h.journal == journal && h.date == date)
    ensures MentionsAt(hits, journal, date) == []
  {
    if hits != [] {
      assert hits[|hits| - 1] in hits;
      assert forall h :: h in hits[..|hits| - 1] ==> h in hits;
      MentionsAtNone(hits[..|hits| - 1], journal, date);
    }
  }

  /** The PubMed loop fails exactly when some row's body raises, and then
      with the exception of the first such row. */
  lemma {:induction false} CollectPubmedErrors(rs: seq<Result<Option<Hit>, PyError>>)
    ensures CollectPubmed(rs).Err? <==> exists k :: 0 <= k < |rs| && rs[k].Err?
    ensures CollectPubmed(rs).Err? ==>
              exists k :: 0 <= k < |rs| && rs[k] == Err(CollectPubmed(rs).error)
                          && forall j :: 0 <= j < k ==> rs[j].Ok?
  {
    if rs != [] {
      var init := rs[..|rs| - 1];
      CollectPubmedErrors(init);
      assert forall k :: 0 <= k < |init| ==> init[k] == rs[k];
      if CollectPubmed(init).Err? {
        var k :| 0 <= k < |init| && init[k] == Err(CollectPubmed(init).error)
                 && forall j :: 0 <= j < k ==> init[j].Ok?;
        assert rs[k] == Err(CollectPubmed(rs).error);
      }
    }
  }

  /** There is one entry per (journal, date) key of the hits, and each
      entry lists, in row order, the mentions of exactly the hits with its
      key: the dict groups the hits by key. */
  lemma {:induction false} CollectPubmedEntries(rs: seq<Result<Option<Hit>, PyError>>)
    requires CollectPubmed(rs).Ok?
    ensures var es := CollectPubmed(rs).value;
            && (forall k :: 0 <= k < |es| ==> es[k].pubmed == MentionsAt(Hits(rs), es[k].journal, es[k].date))
            && (forall h :: h in Hits(rs) ==> FindKey(es, h.journal, h.date).Some?)
  {
    if rs != [] {
      var init := rs[..|rs| - 1];
      var es0 := CollectPubmed(init).value;
      var hits0 := Hits(init);
      CollectPubmedEntries(init);
      var r := rs[|rs| - 1];
      var es := CollectPubmed(rs).value;
      var hits := Hits(rs);
      if r.value.Some? {
        var h := r.value.value;
        assert hits == hits0 + [h];
        assert hits[..|hits| - 1] == hits0;
        assert es == AddPubmed(es0, h);
        var i := FindKey(es0, h.journal, h.date);
        if i.None? {
          assert MentionsAt(hits0, h.journal, h.date) == [] by {
            forall g | g in hits0 ensures !(g.journal == h.journal && g.date == h.date) {
              assert FindKey(es0, g.journal, g.date).Some?;
            }
            MentionsAtNone(hits0, h.journal, h.date);
          }
          assert FindKey(es, h.journal, h.date).Some? by {
            assert es[|es0|].journal == h.journal && es[|es0|].date == h.date;
          }
          forall g | g in hits ensures FindKey(es, g.journal, g.date).Some? {
            if g in hits0 {
              var j := FindKey(es0, g.journal, g.date).value;
              assert es[j] == es0[j];
            }
          }
        } else {
          forall g | g in hits ensures FindKey(es, g.journal, g.date).Some? {
            if g in hits0 {
              var j := FindKey(es0, g.journal, g.date).value;
              assert es[j].journal == es0[j].journal && es[j].date == es0[j].date;
            } else {
              assert es[i.value].journal == h.journal && es[i.value].date == h.date;
            }
          }
        }
      } else {
        assert hits == hits0;
      }
    }
  }

  /** The clinical-trial hits, in row order. */
  function TrialHits(rs: seq<Result<Option<TrialHit>, PyError>>): seq<TrialHit> {
    if rs == [] then []
    else
      var r := rs[|rs| - 1];
      TrialHits(rs[..|rs| - 1]) + (if r.Ok? && r.value.Some? then [r.value.value] else [])
  }

  function TrialMention(h: TrialHit): Mention
    requires h.id.Ok?
  {
    Mention(TrialId(h.id.value), h.title, h.date)
  }

  /** The mentions of the trial hits whose key is (journal, date), in order. */
  function TrialMentionsAt(hits: seq<TrialHit>, journal: Cell, date: Cell): seq<Mention> {
    if hits == [] then []
    else
      var h := hits[|hits| - 1];
      TrialMentionsAt(hits[..|hits| - 1], journal, date)
        + (if h.journal == journal && h.date == date && h.id.Ok? then [TrialMention(h)] else [])
  }

  lemma {:induction false} TrialMentionsAtNone(hits: seq<TrialHit>, journal: Cell, date: Cell)
    requires forall h :: h in hits ==> !(h.journal == journal && h.date == date)
    ensures TrialMentionsAt(hits, journal, date) == []
  {
    if hits != [] {
      assert hits[|hits| - 1] in hits;
      assert forall h :: h in hits[..|hits| - 1] ==> h in hits;
      TrialMentionsAtNone(hits[..|hits| - 1], journal, date);
    }
  }

  /** es0 followed by entries that clinical trials created. */
  predicate ExtendsWithTrials(es0: seq<JournalEntry>, es: seq<JournalEntry>) {
    && KeysDistinct(es) && |es0| <= |es| && es[..|es0|] == es0
    && forall k :: |es0| <= k < |es| ==>
         es[k].pubmed == [] && es[k].clinicalTrial.Some? && es[k].clinicalTrial.value != []
  }

  /** Every trial hit read its id, has a key unknown to es0, and has an
      entry in es. */
  predicate HitsFiled(es0: seq<JournalEntry>, es: seq<JournalEntry>, hits: seq<TrialHit>) {
    forall h :: h in hits ==> h.id.Ok? && FindKey(es0, h.journal, h.date).None? && FindKey(es, h.journal, h.date).Some?
  }

  /** Each entry created by the trials lists the mentions of its hits. */
  predicate TrialsListed(es0: seq<JournalEntry>, es: seq<JournalEntry>, hits: seq<TrialHit>) {
    forall k :: |es0| <= k < |es| && es[k].clinicalTrial.Some? ==>
      es[k].clinicalTrial.value == TrialMentionsAt(hits, es[k].journal, es[k].date)
  }

  /** One step of the clinical-trials loop keeps the three facts above. */
  lemma AddTrialStep(es0: seq<JournalEntry>, es1: seq<JournalEntry>, hits1: seq<TrialHit>, h: TrialHit)
    requires forall k :: 0 <= k < |es0| ==> es0[k].clinicalTrial.None?
    requires ExtendsWithTrials(es0, es1) && HitsFiled(es0, es1, hits1) && TrialsListed(es0, es1, hits1)
    requires AddTrial(es1, h).Ok?
    ensures ExtendsWithTrials(es0, AddTrial(es1, h).value)
    ensures HitsFiled(es0, AddTrial(es1, h).value, hits1 + [h])
    ensures TrialsListed(es0, AddTrial(es1, h).value, hits1 + [h])
  {
    assert FindKey(es0, h.journal, h.date).None? by {
      var j := FindKey(es0, h.journal, h.date);
      if j.Some? {
        assert es1[j.value] == es0[j.value];
        FindKeyUnique(es1, h.journal, h.date, j.value);
        assert false;
      }
    }
    if FindKey(es1, h.journal, h.date).None? {
      AddTrialNewKey(es0, es1, hits1, h);
    } else {
      AddTrialKnownKey(es0, es1, hits1, h);
    }
  }

  /** A trial with a new key appends an entry listing just that trial. */
  lemma AddTrialNewKey(es0: seq<JournalEntry>, es1: seq<JournalEntry>, hits1: seq<TrialHit>, h: TrialHit)
    requires ExtendsWithTrials(es0, es1) && HitsFiled(es0, es1, hits1) && TrialsListed(es0, es1, hits1)
    requires AddTrial(es1, h).Ok? && FindKey(es1, h.journal, h.date).None? && FindKey(es0, h.journal, h.date).None?
    ensures ExtendsWithTrials(es0, AddTrial(es1, h).value)
    ensures HitsFiled(es0, AddTrial(es1, h).value, hits1 + [h])
    ensures TrialsListed(es0, AddTrial(es1, h).value, hits1 + [h])
  {
    var es := AddTrial(es1, h).value;
    var hits := hits1 + [h];
    assert hits[..|hits| - 1] == hits1;
    var m := TrialMention(h);
    assert es == es1 + [JournalEntry(h.journal, h.date, Some([m]), [])];
    assert TrialMentionsAt(hits1, h.journal, h.date) == [] by {
      forall g | g in hits1 ensures !(g.journal == h.journal && g.date == h.date) {
        assert FindKey(es1, g.journal, g.date).Some?;
      }
      TrialMentionsAtNone(hits1, h.journal, h.date);
    }
    assert es[..|es0|] == es1[..|es0|];
    forall g | g in hits ensures FindKey(es, g.journal, g.date).Some? {
      if g in hits1 {
        var j := FindKey(es1, g.journal, g.date).value;
        assert es[j] == es1[j];
      } else {
        assert es[|es1|].journal == g.journal && es[|es1|].date == g.date;
      }
    }
  }

  /** A trial with a key the trials already created joins that entry. */
  lemma AddTrialKnownKey(es0: seq<JournalEntry>, es1: seq<JournalEntry>, hits1: seq<TrialHit>, h: TrialHit)
    requires ExtendsWithTrials(es0, es1) && HitsFiled(es0, es1, hits1) && TrialsListed(es0, es1, hits1)
    requires AddTrial(es1, h).Ok? && FindKey(es1, h.journal, h.date).Some? && FindKey(es0, h.journal, h.date).None?
    ensures ExtendsWithTrials(es0, AddTrial(es1, h).value)
    ensures HitsFiled(es0, AddTrial(es1, h).value, hits1 + [h])
    ensures TrialsListed(es0, AddTrial(es1, h).value, hits1 + [h])
  {
    var es := AddTrial(es1, h).value;
    var hits := hits1 + [h];
    assert hits[..|hits| - 1] == hits1;
    var m := TrialMention(h);
    var n := FindKey(es1, h.journal, h.date).value;
    assert es == es1[n := es1[n].(clinicalTrial := Some(es1[n].clinicalTrial.value + [m]))];
    forall k | |es0| <= k < |es| && es[k].clinicalTrial.Some?
      ensures es[k].clinicalTrial.value == TrialMentionsAt(hits, es[k].journal, es[k].date)
    {
      if k != n {
        assert es[k] == es1[k];
        assert !(es1[k].journal == h.journal && es1[k].date == h.date);
      }
    }
    assert es[..|es0|] == es1[..|es0|];
    forall g | g in hits ensures FindKey(es, g.journal, g.date).Some? {
      if g in hits1 {
        var j := FindKey(es1, g.journal, g.date).value;
        assert es[j].journal == es1[j].journal && es[j].date == es1[j].date;
      } else {
        assert es[n].journal == g.journal && es[n].date == g.date;
      }
    }
  }

  /** Starting from PubMed entries (none of which has a clinical_trial
      list), a successful clinical-trials loop leaves those entries as they
      were and appends one entry per new key, holding no PubMed mention and
      the mentions of exactly the trials with that key; no trial hit shares
      a key with a PubMed entry, since that would have raised KeyError. */
  lemma {:induction false} CollectTrialsEntries(es0: seq<JournalEntry>, rs: seq<Result<Option<TrialHit>, PyError>>)
    requires KeysDistinct(es0) && forall k :: 0 <= k < |es0| ==> es0[k].clinicalTrial.None?
    requires CollectTrials(es0, rs).Ok?
    ensures ExtendsWithTrials(es0, CollectTrials(es0, rs).value)
    ensures HitsFiled(es0, CollectTrials(es0, rs).value, TrialHits(rs))
    ensures TrialsListed(es0, CollectTrials(es0, rs).value, TrialHits(rs))
  {
    if rs == [] {
      assert es0[..|es0|] == es0;
    } else {
      var init := rs[..|rs| - 1];
      CollectTrialsEntries(es0, init);
      var es1 := CollectTrials(es0, init).value;
      var r := rs[|rs| - 1];
      if r.value.Some? {
        assert TrialHits(rs) == TrialHits(init) + [r.value.value];
        AddTrialStep(es0, es1, TrialHits(init), r.value.value);
      } else {
        assert TrialHits(rs) == TrialHits(init);
      }
    }
  }

  // ---------------------------------------------------------------------
  // One drug's journals, and the whole graph

  /** The journals of a drug: first one entry per (journal, date) key of
      its PubMed hits, in order of first hit, holding those articles and no
      clinical_trial list; then one entry per new key of its clinical-trial
      hits, holding those trials and no PubMed article. No entry mixes the
      two sources. */
  lemma DrugJournalsSpec(v: Variant, drug: Cell, pubmed: seq<Row>, trials: seq<Row>)
    requires DrugJournals(v, drug, pubmed, trials).Ok?
    ensures var es0 := ScanPubmed(v, drug, pubmed).value;
            var es := DrugJournals(v, drug, pubmed, trials).value;
            var hits := Hits(PubmedResults(v, drug, pubmed));
            var thits := TrialHits(TrialResults(v, drug, trials));
            && ScanPubmed(v, drug, pubmed).Ok? && KeysDistinct(es)
            && |es0| <= |es| && es[..|es0|] == es0
            && (forall k :: 0 <= k < |es0| ==>
                  es[k].clinicalTrial.None? && es[k].pubmed != []
                  && es[k].pubmed == MentionsAt(hits, es[k].journal, es[k].date))
            && (forall k :: |es0| <= k < |es| ==>
                  es[k].pubmed == [] && es[k].clinicalTrial.Some? && es[k].clinicalTrial.value != []
                  && es[k].clinicalTrial.value == TrialMentionsAt(thits, es[k].journal, es[k].date))
            && (forall h :: h in hits ==> FindKey(es0, h.journal, h.date).Some?)
            && (forall h :: h in thits ==> FindKey(es0, h.journal, h.date).None? && FindKey(es, h.journal, h.date).Some?)
  {
    var prs := PubmedResults(v, drug, pubmed);
    CollectPubmedEntries(prs);
    var es0 := ScanPubmed(v, drug, pubmed).value;
    CollectTrialsEntries(es0, TrialResults(v, drug, trials));
    var es := DrugJournals(v, drug, pubmed, trials).value;
    assert forall k :: 0 <= k < |es0| ==> es[k] == es0[k] by {
      assert es[..|es0|] == es0;
      forall k | 0 <= k < |es0| ensures es[k] == es0[k] {
        assert es[..|es0|][k] == es[k];
      }
    }
  }

  /** The title the drug was found in: `drug in title` (on the lowered
      title in the legacy variant) held. */
  predicate NamesDrug(v: Variant, drug: Cell, title: string) {
    drug.Some? && Contains(MatchText(v, title), drug.value)
  }

  /** Every mention filed for a drug, PubMed article or clinical trial,
      has a title that names the drug. */
  lemma MentionsNameDrug(v: Variant, drug: Cell, pubmed: seq<Row>, trials: seq<Row>)
    requires DrugJournals(v, drug, pubmed, trials).Ok?
    ensures var es := DrugJournals(v, drug, pubmed, trials).value;
            forall k, m :: 0 <= k < |es| && (m in es[k].pubmed || (es[k].clinicalTrial.Some? && m in es[k].clinicalTrial.value))
              ==> NamesDrug(v, drug, m.title)
  {
    var prs := PubmedResults(v, drug, pubmed);
    var trs := TrialResults(v, drug, trials);
    RowsNameDrug(v, drug, pubmed, trials);
    HitsNameDrug(v, drug, prs);
    TrialHitsNameDrug(v, drug, trs);
    DrugJournalsSpec(v, drug, pubmed, trials);
    var es0 := ScanPubmed(v, drug, pubmed).value;
    var es := DrugJournals(v, drug, pubmed, trials).value;
    forall k | 0 <= k < |es|
      ensures forall m :: m in es[k].pubmed || (es[k].clinicalTrial.Some? && m in es[k].clinicalTrial.value) ==> NamesDrug(v, drug, m.title)
    {
      EntryNamesDrug(v, drug, es[k], Hits(prs), TrialHits(trs));
    }
  }

  /** A row that yields a hit has a title that names the drug. */
  lemma RowsNameDrug(v: Variant, drug: Cell, pubmed: seq<Row>, trials: seq<Row>)
    ensures var rs := PubmedResults(v, drug, pubmed);
            forall k :: 0 <= k < |rs| && rs[k].Ok? && rs[k].value.Some? ==> NamesDrug(v, drug, rs[k].value.value.mention.title)
    ensures var rs := TrialResults(v, drug, trials);
            forall k :: 0 <= k < |rs| && rs[k].Ok? && rs[k].value.Some? ==> NamesDrug(v, drug, rs[k].value.value.title)
  {
  }

  /** An entry built from hits that name the drug lists only such mentions. */
  lemma EntryNamesDrug(v: Variant, drug: Cell, e: JournalEntry, hits: seq<Hit>, thits: seq<TrialHit>)
    requires forall h :: h in hits ==> NamesDrug(v, drug, h.mention.title)
    requires forall h :: h in thits ==> NamesDrug(v, drug, h.title)
    requires || (e.clinicalTrial.None? && e.pubmed == MentionsAt(hits, e.journal, e.date))
             || (e.pubmed == [] && e.clinicalTrial.Some? && e.clinicalTrial.value == TrialMentionsAt(thits, e.journal, e.date))
    ensures forall m :: m in e.pubmed || (e.clinicalTrial.Some? && m in e.clinicalTrial.value) ==> NamesDrug(v, drug, m.title)
  {
    MentionsAtFrom(hits, e.journal, e.date);
    TrialMentionsAtFrom(thits, e.journal, e.date);
  }

  /** A PubMed hit's title names the drug. */
  lemma {:induction false} HitsNameDrug(v: Variant, drug: Cell, rs: seq<Result<Option<Hit>, PyError>>)
    requires forall k :: 0 <= k < |rs| && rs[k].Ok? && rs[k].value.Some? ==> NamesDrug(v, drug, rs[k].value.value.mention.title)
    ensures forall h :: h in Hits(rs) ==> NamesDrug(v, drug, h.mention.title)
  {
    if rs != [] {
      var init := rs[..|rs| - 1];
      assert forall k :: 0 <= k < |init| ==> init[k] == rs[k];
      HitsNameDrug(v, drug, init);
    }
  }

  /** A clinical-trial hit's title names the drug. */
  lemma {:induction false} TrialHitsNameDrug(v: Variant, drug: Cell, rs: seq<Result<Option<TrialHit>, PyError>>)
    requires forall k :: 0 <= k < |rs| && rs[k].Ok? && rs[k].value.Some? ==> NamesDrug(v, drug, rs[k].value.value.title)
    ensures forall h :: h in TrialHits(rs) ==> NamesDrug(v, drug, h.title)
  {
    if rs != [] {
      var init := rs[..|rs| - 1];
      assert forall k :: 0 <= k < |init| ==> init[k] == rs[k];
      TrialHitsNameDrug(v, drug, init);
    }
  }

  /** Each mention listed under a key is the mention of one of the hits. */
  lemma {:induction false} MentionsAtFrom(hits: seq<Hit>, journal: Cell, date: Cell)
    ensures forall m :: m in MentionsAt(hits, journal, date) ==> exists h :: h in hits && h.mention == m
  {
    if hits != [] {
      MentionsAtFrom(hits[..|hits| - 1], journal, date);
      assert forall h :: h in hits[..|hits| - 1] ==> h in hits;
      assert hits[|hits| - 1] in hits;
    }
  }

  lemma {:induction false} TrialMentionsAtFrom(hits: seq<TrialHit>, journal: Cell, date: Cell)
    ensures forall m :: m in TrialMentionsAt(hits, journal, date) ==> exists h :: h in hits && h.title == m.title
  {
    if hits != [] {
      TrialMentionsAtFrom(hits[..|hits| - 1], journal, date);
      assert forall h :: h in hits[..|hits| - 1] ==> h in hits;
      assert hits[|hits| - 1] in hits;
    }
  }

  /** A PubMed article and a clinical trial that both name the drug under
      the same journal and date make generate_graph fail: the trial is
      appended to the PubMed entry's missing clinical_trial list. */
  lemma SharedKeyFails(v: Variant, drug: Cell, pubmed: seq<Row>, trials: seq<Row>, i: nat, k: nat)
    requires i < |pubmed| && k < |trials|
    requires PubmedRow(v, drug, pubmed[i]).Ok? && PubmedRow(v, drug, pubmed[i]).value.Some?
    requires TrialRow(v, drug, trials[k]).Ok? && TrialRow(v, drug, trials[k]).value.Some?
    requires PubmedRow(v, drug, pubmed[i]).value.value.journal == TrialRow(v, drug, trials[k]).value.value.journal
    requires PubmedRow(v, drug, pubmed[i]).value.value.date == TrialRow(v, drug, trials[k]).value.value.date
    ensures DrugJournals(v, drug, pubmed, trials).Err?
    ensures (forall j :: 0 <= j < |pubmed| ==> PubmedRow(v, drug, pubmed[j]).Ok?)
            && TrialRowsClean(TrialResults(v, drug, trials))
            ==> DrugJournals(v, drug, pubmed, trials) == Err(KeyError("clinical_trial"))
  {
    if DrugJournals(v, drug, pubmed, trials).Ok? {
      DrugJournalsSpec(v, drug, pubmed, trials);
      HitsHas(PubmedResults(v, drug, pubmed), i);
      TrialHitsHas(TrialResults(v, drug, trials), k);
    }
    if (forall j :: 0 <= j < |pubmed| ==> PubmedRow(v, drug, pubmed[j]).Ok?)
       && TrialRowsClean(TrialResults(v, drug, trials)) {
      CollectPubmedErrors(PubmedResults(v, drug, pubmed));
      TrialsOnlyKeyError(ScanPubmed(v, drug, pubmed).value, TrialResults(v, drug, trials));
    }
  }

  /** Every clinical-trial row is read without an exception, and every
      trial that names the drug has an id column. */
  predicate TrialRowsClean(rs: seq<Result<Option<TrialHit>, PyError>>) {
    forall k :: 0 <= k < |rs| ==> rs[k].Ok? && (rs[k].value.Some? ==> rs[k].value.value.id.Ok?)
  }

  /** When no row raises and every id can be read, the only exception the
      clinical-trials loop can raise is KeyError('clinical_trial'). */
  lemma {:induction false} TrialsOnlyKeyError(es0: seq<JournalEntry>, rs: seq<Result<Option<TrialHit>, PyError>>)
    requires TrialRowsClean(rs)
    ensures CollectTrials(es0, rs).Err? ==> CollectTrials(es0, rs).error == KeyError("clinical_trial")
  {
    if rs != [] {
      var init := rs[..|rs| - 1];
      assert TrialRowsClean(init) by {
        forall k | 0 <= k < |init| ensures init[k] == rs[k] { }
      }
      TrialsOnlyKeyError(es0, init);
    }
  }

  lemma {:induction false} HitsHas(rs: seq<Result<Option<Hit>, PyError>>, i: nat)
    requires i < |rs| && rs[i].Ok? && rs[i].value.Some?
    ensures rs[i].value.value in Hits(rs)
  {
    if i < |rs| - 1 {
      HitsHas(rs[..|rs| - 1], i);
    }
  }

  lemma {:induction false} TrialHitsHas(rs: seq<Result<Option<TrialHit>, PyError>>, k: nat)
    requires k < |rs| && rs[k].Ok? && rs[k].value.Some?
    ensures rs[k].value.value in TrialHits(rs)
  {
    if k < |rs| - 1 {
      TrialHitsHas(rs[..|rs| - 1], k);
    }
  }

  /** A drug named by no title gets an empty list of journals. */
  lemma UnmentionedDrug(v: Variant, drug: Cell, pubmed: seq<Row>, trials: seq<Row>)
    requires forall k :: 0 <= k < |pubmed| ==> PubmedRow(v, drug, pubmed[k]) == Ok(None)
    requires forall k :: 0 <= k < |trials| ==> TrialRow(v, drug, trials[k]) == Ok(None)
    ensures DrugJournals(v, drug, pubmed, trials) == Ok([])
  {
    NoHitsNoEntries(PubmedResults(v, drug, pubmed));
    NoTrialHitsNoEntries([], TrialResults(v, drug, trials));
  }

  lemma {:induction false} NoHitsNoEntries(rs: seq<Result<Option<Hit>, PyError>>)
    requires forall k :: 0 <= k < |rs| ==> rs[k] == Ok(None)
    ensures CollectPubmed(rs) == Ok([])
  {
    if rs != [] {
      NoHitsNoEntries(rs[..|rs| - 1]);
    }
  }

  lemma {:induction false} NoTrialHitsNoEntries(es0: seq<JournalEntry>, rs: seq<Result<Option<TrialHit>, PyError>>)
    requires forall k :: 0 <= k < |rs| ==> rs[k] == Ok(None)
    ensures CollectTrials(es0, rs) == Ok(es0)
  {
    if rs != [] {
      NoTrialHitsNoEntries(es0, rs[..|rs| - 1]);
    }
  }

  /** The legacy variant lowercases the title before the substring test, so
      a cleaned (lowercase) drug name matches a title that capitalises it;
      the current variant relies on clean_data having lowercased titles. */
  lemma LegacyIgnoresCase()
    ensures Mentions(Legacy, Some("aspirin"), Some("Aspirin")) == Ok(true)
    ensures Mentions(Current, Some("aspirin"), Some("Aspirin")) == Ok(false)
  {
    assert Lower("Aspirin") == "aspirin";
    assert StartsWith("aspirin", "aspirin");
    ContainsAt("aspirin", "aspirin", 0);
    assert !StartsWith("Aspirin", "aspirin") by {
      assert "Aspirin"[0] != "aspirin"[0];
    }
    assert !Contains("spirin", "aspirin");
  }

  /** A prefix that fails makes the whole loop fail the same way. */
  lemma {:induction false} CollectPubmedErrPrefix(rs: seq<Result<Option<Hit>, PyError>>, i: nat)
    requires i <= |rs| && CollectPubmed(rs[..i]).Err?
    ensures CollectPubmed(rs) == CollectPubmed(rs[..i])
    decreases |rs| - i
  {
    if i < |rs| {
      assert rs[..i + 1][..i] == rs[..i];
      CollectPubmedErrPrefix(rs, i + 1);
    } else {
      assert rs[..i] == rs;
    }
  }

  lemma {:induction false} CollectTrialsErrPrefix(es0: seq<JournalEntry>, rs: seq<Result<Option<TrialHit>, PyError>>, i: nat)
    requires i <= |rs| && CollectTrials(es0, rs[..i]).Err?
    ensures CollectTrials(es0, rs) == CollectTrials(es0, rs[..i])
    decreases |rs| - i
  {
    if i < |rs| {
      assert rs[..i + 1][..i] == rs[..i];
      CollectTrialsErrPrefix(es0, rs, i + 1);
    } else {
      assert rs[..i] == rs;
    }
  }

  /** One more row of the PubMed loop. */
  lemma CollectPubmedStep(rs: seq<Result<Option<Hit>, PyError>>, i: nat, es: seq<JournalEntry>)
    requires i < |rs| && CollectPubmed(rs[..i]) == Ok(es)
    ensures rs[i].Err? ==> CollectPubmed(rs[..i + 1]) == Err(rs[i].error)
    ensures rs[i].Ok? && rs[i].value.None? ==> CollectPubmed(rs[..i + 1]) == Ok(es)
    ensures rs[i].Ok? && rs[i].value.Some? ==> CollectPubmed(rs[..i + 1]) == Ok(AddPubmed(es, rs[i].value.value))
  {
    assert rs[..i + 1][..i] == rs[..i];
  }

  /** One more row of the clinical-trial loop. */
  lemma CollectTrialsStep(es0: seq<JournalEntry>, rs: seq<Result<Option<TrialHit>, PyError>>, i: nat, es: seq<JournalEntry>)
    requires i < |rs| && CollectTrials(es0, rs[..i]) == Ok(es)
    ensures rs[i].Err? ==> CollectTrials(es0, rs[..i + 1]) == Err(rs[i].error)
    ensures rs[i].Ok? && rs[i].value.None? ==> CollectTrials(es0, rs[..i + 1]) == Ok(es)
    ensures rs[i].Ok? && rs[i].value.Some? ==> CollectTrials(es0, rs[..i + 1]) == AddTrial(es, rs[i].value.value)
  {
    assert rs[..i + 1][..i] == rs[..i];
  }

  /** The loop over the PubMed rows of generate_graph for one drug. */
  method PubmedEntries(v: Variant, drug: Cell, pubmed: seq<Row>) returns (r: Result<seq<JournalEntry>, PyError>)
    ensures r == ScanPubmed(v, drug, pubmed)
  {
    var journals: seq<JournalEntry> := [];
    ghost var rs := PubmedResults(v, drug, pubmed);
    var i := 0;
    while i < |pubmed|
      invariant 0 <= i <= |pubmed|
      invariant CollectPubmed(rs[..i]) == Ok(journals)
    {
      var row := PubmedRow(v, drug, pubmed[i]);
      CollectPubmedStep(rs, i, journals);
      if row.Err? {
        CollectPubmedErrPrefix(rs, i + 1);
        return Err(row.error);
      }
      if row.value.Some? {
        journals := AddPubmed(journals, row.value.value);
      }
      i := i + 1;
    }
    assert rs[..i] == rs;
    r := Ok(journals);
  }

  /** The loop over the clinical-trial rows of generate_graph for one drug,
      continuing the journals found in PubMed. */
  method TrialEntries(v: Variant, drug: Cell, es0: seq<JournalEntry>, trials: seq<Row>) returns (r: Result<seq<JournalEntry>, PyError>)
    ensures r == ScanTrials(v, drug, es0, trials)
  {
    var journals := es0;
    ghost var rs := TrialResults(v, drug, trials);
    var j := 0;
    while j < |trials|
      invariant 0 <= j <= |trials|
      invariant CollectTrials(es0, rs[..j]) == Ok(journals)
    {
      var row := TrialRow(v, drug, trials[j]);
      CollectTrialsStep(es0, rs, j, journals);
      if row.Err? {
        CollectTrialsErrPrefix(es0, rs, j + 1);
        return Err(row.error);
      }
      if row.value.Some? {
        var added := AddTrial(journals, row.value.value);
        if added.Err? {
          CollectTrialsErrPrefix(es0, rs, j + 1);
          return Err(added.error);
        }
        journals := added.value;
      }
      j := j + 1;
    }
    assert rs[..j] == rs;
    r := Ok(journals);
  }

  /** Both row loops of generate_graph for one drug (lines 139-176). */
  method DrugEntries(v: Variant, drug: Cell, pubmed: seq<Row>, trials: seq<Row>) returns (r: Result<seq<JournalEntry>, PyError>)
    ensures r == DrugJournals(v, drug, pubmed, trials)
  {
    var es0 := PubmedEntries(v, drug, pubmed);
    if es0.Err? {
      return Err(es0.error);
    }
    r := TrialEntries(v, drug, es0.value, trials);
  }

  /** set(in_df_drugs['drug']). */
  function DrugSet(drugs: Table): set<Cell> {
    set k | 0 <= k < |drugs.rows| :: Get(drugs.rows[k], "drug")
  }

  /** g holds exactly one node per distinct drug, each with its journals. */
  predicate GraphOf(v: Variant, trials: Table, pubmed: Table, drugs: Table, g: seq<DrugNode>) {
    && |g| == |DrugSet(drugs)|
    && (forall i, j :: 0 <= i < j < |g| ==> g[i].drug != g[j].drug)
    && (forall i :: 0 <= i < |g| ==>
          g[i].drug in DrugSet(drugs) && DrugJournals(v, g[i].drug, pubmed.rows, trials.rows) == Ok(g[i].journals))
  }

  /** generate_graph: the drugs are taken from a set, so the order of the
      nodes is unspecified; any drug whose loops raise makes the whole call
      raise. */
  method GenerateGraph(v: Variant, trials: Table, pubmed: Table, drugs: Table) returns (r: Result<seq<DrugNode>, PyError>)
    ensures "drug" !in drugs.columns ==> r == Err(KeyError("drug"))
    ensures r.Ok? <==> "drug" in drugs.columns && forall d :: d in DrugSet(drugs) ==> DrugJournals(v, d, pubmed.rows, trials.rows).Ok?
    ensures r.Ok? ==> GraphOf(v, trials, pubmed, drugs, r.value)
    ensures r.Err? && "drug" in drugs.columns ==>
              exists d :: d in DrugSet(drugs) && DrugJournals(v, d, pubmed.rows, trials.rows) == Err(r.error)
  {
    if "drug" !in drugs.columns {
      return Err(KeyError("drug"));
    }
    var all := DrugSet(drugs);
    var remaining := all;
    var results: seq<DrugNode> := [];
    while remaining != {}
      invariant remaining <= all
      invariant |results| + |remaining| == |all|
      invariant forall i, j :: 0 <= i < j < |results| ==> results[i].drug != results[j].drug
      invariant forall i :: 0 <= i < |results| ==>
                  results[i].drug in all && results[i].drug !in remaining
                  && DrugJournals(v, results[i].drug, pubmed.rows, trials.rows) == Ok(results[i].journals)
      invariant forall d :: d in all && d !in remaining ==> DrugJournals(v, d, pubmed.rows, trials.rows).Ok?
      decreases |remaining|
    {
      var drug :| drug in remaining;
      var journals := DrugEntries(v, drug, pubmed.rows, trials.rows);
      if journals.Err? {
        return Err(journals.error);
      }
      results := results + [DrugNode(drug, journals.value)];
      remaining := remaining - {drug};
    }
    r := Ok(results);
  }
}
