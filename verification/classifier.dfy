/**
 The source-shape classifier: which venue template an entry is formatted
 with, decided by an ordered cascade of entry-type pattern checks in which
 the first success wins and `Generic` is the fallback.
 */
module Classifier {
  import opened Options
  import opened Entries

  /** The shape of an entry's source; a shape that needs a parent carries its index. */
  datatype SourceType =
    | PeriodicalItem(parent: nat)
    | CollectionItem(parent: nat)
    | TvSeries(parent: nat)
    | Thesis
    | Manuscript
    | ArtContainer(parent: nat)
    | StandaloneArt
    | StandaloneWebItem
    | WebItem(parent: nat)
    | NewsItem(parent: nat)
    | ConferenceTalk(parent: nat)
    | Generic

  predicate HasParent(st: SourceType) {
    st.PeriodicalItem? || st.CollectionItem? || st.TvSeries? || st.ArtContainer?
    || st.WebItem? || st.NewsItem? || st.ConferenceTalk?
  }

  /** The four collection pairings, tried in order. */
  function CollectionCheck(c: Checks): Option<nat> {
    c.collectionA.OrElse(c.collectionB).OrElse(c.collectionC).OrElse(c.collectionD)
  }

  /** The two contained-web-item pairings, tried in order. */
  function WebContainedCheck(c: Checks): Option<nat> {
    c.webContainedA.OrElse(c.webContainedB)
  }

  /** The classifier as the source writes it: a chain of early returns. */
  function ForEntry(e: Entry, c: Checks): (st: SourceType)
    requires ChecksFit(c, |e.parents|)
    ensures HasParent(st) ==> st.parent < |e.parents|
    ensures !st.NewsItem?
    ensures st.TvSeries? ==> e.issue.Some? && e.volume.Some?
  {
    if c.periodical.Some? then
      PeriodicalItem(c.periodical.value)
    else if CollectionCheck(c).Some? then
      CollectionItem(CollectionCheck(c).value)
    else if c.tvSeries.Some? && e.issue.Some? && e.volume.Some? then
      TvSeries(c.tvSeries.value)
    else if c.thesis then
      Thesis
    else if c.manuscript then
      Manuscript
    else if c.artContainer.Some? then
      ArtContainer(c.artContainer.value)
    else if c.art then
      StandaloneArt
    else if c.webStandalone then
      StandaloneWebItem
    else if WebContainedCheck(c).Some? then
      WebItem(WebContainedCheck(c).value)
    else if c.talk.Some? then
      ConferenceTalk(c.talk.value)
    else
      Generic
  }

  function Flag(b: bool, st: SourceType): Option<SourceType> {
    if b then Some(st) else None
  }

  /**
   The cascade as an explicit rule table: one candidate per rule, in
   precedence order, present exactly when that rule's check succeeds.
   */
  function Rules(e: Entry, c: Checks): (rules: seq<Option<SourceType>>)
    ensures |rules| == 10
  {
    var collection := CollectionCheck(c);
    var tv := if e.issue.Some? && e.volume.Some? then c.tvSeries else None;
    var web := WebContainedCheck(c);
    [ if c.periodical.Some? then Some(PeriodicalItem(c.periodical.value)) else None,
      if collection.Some? then Some(CollectionItem(collection.value)) else None,
      if tv.Some? then Some(TvSeries(tv.value)) else None,
      Flag(c.thesis, Thesis),
      Flag(c.manuscript, Manuscript),
      if c.artContainer.Some? then Some(ArtContainer(c.artContainer.value)) else None,
      Flag(c.art, StandaloneArt),
      Flag(c.webStandalone, StandaloneWebItem),
      if web.Some? then Some(WebItem(web.value)) else None,
      if c.talk.Some? then Some(ConferenceTalk(c.talk.value)) else None ]
  }

  /** The first present candidate at or after position `from`, or `Generic` when there is none. */
  function FirstMatchFrom(rules: seq<Option<SourceType>>, from: nat): SourceType
    decreases |rules| - from
  {
    if from >= |rules| then Generic
    else if rules[from].Some? then rules[from].value
    else FirstMatchFrom(rules, from + 1)
  }

  function FirstMatch(rules: seq<Option<SourceType>>): SourceType {
    FirstMatchFrom(rules, 0)
  }

  /** The first success in a rule table decides, whatever the later rules say. */
  lemma {:induction false} FirstMatchPrecedence(rules: seq<Option<SourceType>>, from: nat, k: nat)
    requires from <= k < |rules| && rules[k].Some?
    requires forall j :: from <= j < k ==> rules[j].None?
    ensures FirstMatchFrom(rules, from) == rules[k].value
    decreases k - from
  {
    if from < k {
      FirstMatchPrecedence(rules, from + 1, k);
    }
  }

  /**
   In a table whose candidates are never `Generic` themselves, the fallback is
   chosen exactly when no rule at or after `from` succeeds.
   */
  lemma {:induction false} FirstMatchFallback(rules: seq<Option<SourceType>>, from: nat)
    requires forall j :: from <= j < |rules| ==> rules[j].None? || rules[j].value != Generic
    ensures FirstMatchFrom(rules, from) == Generic <==> (forall j :: from <= j < |rules| ==> rules[j].None?)
    decreases |rules| - from
  {
    if from < |rules| {
      FirstMatchFallback(rules, from + 1);
    }
  }

  /** The chain of early returns is the first-match evaluation of the rule table. */
  lemma ForEntryIsFirstMatch(e: Entry, c: Checks)
    requires ChecksFit(c, |e.parents|)
    ensures ForEntry(e, c) == FirstMatch(Rules(e, c))
  {
    var r := Rules(e, c);
    var k :| 0 <= k <= 10 && (k == 10 || r[k].Some?) && forall j :: 0 <= j < k ==> r[j].None?;
    assert (k > 0 ==> r[0].None?) && (k > 1 ==> r[1].None?) && (k > 2 ==> r[2].None?);
    assert (k > 3 ==> r[3].None?) && (k > 4 ==> r[4].None?) && (k > 5 ==> r[5].None?);
    assert (k > 6 ==> r[6].None?) && (k > 7 ==> r[7].None?) && (k > 8 ==> r[8].None?);
    if k < 10 {
      FirstMatchPrecedence(r, 0, k);
    } else {
      assert r[9].None?;
      FirstMatchFallback(r, 0);
    }
  }

  /** Rule k decides the shape when it succeeds and every earlier rule fails, and the shape carries that rule's index. */
  lemma ForEntryFirstSuccessWins(e: Entry, c: Checks, k: nat)
    requires ChecksFit(c, |e.parents|)
    requires k < 10 && Rules(e, c)[k].Some?
    requires forall j :: 0 <= j < k ==> Rules(e, c)[j].None?
    ensures ForEntry(e, c) == Rules(e, c)[k].value
  {
    ForEntryIsFirstMatch(e, c);
    FirstMatchPrecedence(Rules(e, c), 0, k);
  }

  /** `Generic` is chosen exactly when every check fails. */
  lemma ForEntryGenericIff(e: Entry, c: Checks)
    requires ChecksFit(c, |e.parents|)
    ensures ForEntry(e, c) == Generic <==> (forall j :: 0 <= j < 10 ==> Rules(e, c)[j].None?)
  {
    ForEntryIsFirstMatch(e, c);
    FirstMatchFallback(Rules(e, c), 0);
  }

  /** A matching TV pairing without both issue and volume is passed over as if it had failed. */
  lemma TvSeriesNeedsIssueAndVolume(e: Entry, c: Checks)
    requires ChecksFit(c, |e.parents|)
    requires e.issue.None? || e.volume.None?
    ensures ForEntry(e, c) == ForEntry(e, c.(tvSeries := None))
  {
  }

  /** A periodical parent decides the shape whatever the later checks report. */
  lemma PeriodicalPrecedes(e: Entry, c: Checks, c': Checks)
    requires ChecksFit(c, |e.parents|) && ChecksFit(c', |e.parents|)
    requires c.periodical.Some? && c'.periodical == c.periodical
    ensures ForEntry(e, c) == ForEntry(e, c') == PeriodicalItem(c.periodical.value)
  {
  }

  /** An entry without parents is only ever given a shape that needs no parent. */
  lemma NoParentsNoParentShape(e: Entry, c: Checks)
    requires ChecksFit(c, |e.parents|) && |e.parents| == 0
    ensures !HasParent(ForEntry(e, c))
  {
  }
}
