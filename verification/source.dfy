/**
 The venue clause of an APA reference: the text the source segment has
 assembled once the per-shape case analysis is over.
 */
module Source {
  import opened Options
  import opened Text
  import opened Entries
  import opened Names
  import opened Fragments
  import opened Classifier

  /** Comma-separated present clauses closed by a period, or nothing when no clause is present. */
  function ClauseList(clauses: seq<Option<string>>): string {
    var ps := Present(clauses);
    if |ps| == 0 then "" else Join(ps, ", ") + "."
  }

  function ParentTitle(parent: Entry, lookups: Lookups): Option<string> {
    if parent.title.Some? then Some(lookups.sentenceCase(parent.title.value)) else None
  }

  /** "{volume}({issue})" of a periodical, either part optional. */
  function VolumeIssue(parent: Entry): Option<string> {
    if parent.volume.Some? || parent.issue.Some? then
      Some((if parent.volume.Some? then FormatRange("", "", parent.volume.value) else "")
        + (if parent.issue.Some? then "(" + NumOrStrText(parent.issue.value) + ")" else ""))
    else
      None
  }

  /** The article number, or failing that the page range. */
  function Locator(e: Entry): Option<string> {
    if e.serialNumber.Some? then Some(e.serialNumber.value)
    else if e.pageRange.Some? then Some(FormatRange("", "", e.pageRange.value))
    else None
  }

  /** The periodical arm as the source writes it: a running text and a flag saying a clause was emitted. */
  function PeriodicalClause(e: Entry, parent: Entry, lookups: Lookups): (r: string)
    ensures r == "" <==>
      (parent.title.None? && parent.volume.None? && parent.issue.None?
       && e.serialNumber.None? && e.pageRange.None?)
  {
    var title := ParentTitle(parent, lookups);
    var res0 := if title.Some? then title.value else "";
    var comma0 := title.Some?;
    var volIssue := VolumeIssue(parent);
    var res1 := if volIssue.Some? then res0 + (if comma0 then ", " else "") + volIssue.value else res0;
    var comma1 := comma0 || volIssue.Some?;
    var locator := Locator(e);
    var res2 := if locator.Some? then res1 + (if comma1 then ", " else "") + locator.value else res1;
    var comma2 := comma1 || locator.Some?;
    if comma2 then res2 + "." else res2
  }

  /**
   The flag-threading periodical arm is the comma-join of its present clauses
   (parent title, volume and issue, locator) with a closing period when any
   clause is present.
   */
  lemma PeriodicalClauseIsClauseList(e: Entry, parent: Entry, lookups: Lookups)
    ensures PeriodicalClause(e, parent, lookups)
      == ClauseList([ParentTitle(parent, lookups), VolumeIssue(parent), Locator(e)])
  {
    RunningJoin(ParentTitle(parent, lookups), VolumeIssue(parent), Locator(e));
  }

  /** The periodical arm emits nothing exactly when the parent has no title, volume or issue and the entry no locator. */
  lemma PeriodicalClauseEmpty(e: Entry, parent: Entry, lookups: Lookups)
    ensures var r := PeriodicalClause(e, parent, lookups);
      && (r == "" <==>
            (parent.title.None? && parent.volume.None? && parent.issue.None?
             && e.serialNumber.None? && e.pageRange.None?))
      && (r != "" ==> EndsWith(r, "."))
  {
    var r := PeriodicalClause(e, parent, lookups);
    if r != "" {
      assert r[|r| - 1] == '.';
    }
  }

  /** The locator closes the periodical arm: an article number wins over a page range. */
  lemma PeriodicalClauseLocatorLast(e: Entry, parent: Entry, lookups: Lookups)
    requires Locator(e).Some?
    ensures var r := PeriodicalClause(e, parent, lookups);
      && (e.serialNumber.Some? ==> EndsWith(r, e.serialNumber.value + "."))
      && (e.serialNumber.None? ==> EndsWith(r, FormatRange("", "", e.pageRange.value) + "."))
  {
    var title := ParentTitle(parent, lookups);
    var res0 := if title.Some? then title.value else "";
    var volIssue := VolumeIssue(parent);
    var res1 := if volIssue.Some? then res0 + (if title.Some? then ", " else "") + volIssue.value else res0;
    var head := res1 + (if title.Some? || volIssue.Some? then ", " else "");
    var locator := Locator(e).value;
    var r := PeriodicalClause(e, parent, lookups);
    assert r == head + locator + ".";
    AppendAssoc(head, locator, ".");
    assert r[|r| - |locator + "."|..] == locator + ".";
  }

  /** The editors part of a container clause: one name with "(Ed.)", several with "(Eds.)". */
  function EditorsPart(names: seq<string>): string {
    if |names| == 0 then ""
    else if |names| == 1 then names[0] + " (Ed.)"
    else AmpersandList(names) + " (Eds.)"
  }

  /** The publisher, or failing that the organization. */
  function PublisherOrOrganization(entry: Entry): Option<string> {
    if entry.publisher.Some? then entry.publisher else entry.organization
  }

  /**
   The editors-and-title text of the collection and TV arms: the editors, the
   parent title after ", " when editors were emitted, then either a space and
   the child entry's edition/volume parenthetical (when the parent has a
   volume or an edition) or a sentence terminator; editors without a title
   are closed by a period.
   */
  function ContainerBody(names: seq<string>, parent: Entry, e: Entry, lookups: Lookups): (body: string)
    ensures body == "" <==> |names| == 0 && parent.title.None?
  {
    var editors := EditorsPart(names);
    var comma := |names| > 0;
    if parent.title.Some? then
      var t := editors + (if comma then ", " else "") + lookups.sentenceCase(parent.title.value);
      if parent.volume.Some? || parent.edition.Some? then t + " " + EdVolStr(e, lookups) else Terminate(t)
    else if comma then editors + "."
    else editors
  }

  /** " {publisher-or-organization}." of the parent, or nothing. */
  function PublisherTail(parent: Entry): string {
    var publisher := PublisherOrOrganization(parent);
    if publisher.Some? then " " + publisher.value + "." else ""
  }

  /** The collection and TV arms: "In " before any emitted text, then the parent's publisher. */
  function ContainerClause(persons: seq<Person>, parent: Entry, e: Entry, lookups: Lookups): (r: string)
    ensures var body := ContainerBody(NameList(persons), parent, e, lookups);
      r == (if body == "" then "" else "In " + body) + PublisherTail(parent)
    ensures EndsWith(r, PublisherTail(parent))
    ensures r == PublisherTail(parent) <==> |persons| == 0 && parent.title.None?
  {
    var body := ContainerBody(NameList(persons), parent, e, lookups);
    var r := (if body == "" then "" else "In " + body) + PublisherTail(parent);
    Framed(if body == "" then "" else "In " + body, "", PublisherTail(parent));
    assert r == (if body == "" then "" else "In " + body) + "" + PublisherTail(parent);
    r
  }

  /**
   The editors-and-title text before its ending, as a list: the editors part
   when there are editors and the parent's sentence-cased title, joined by ", ".
   */
  function ContainerHead(names: seq<string>, parent: Entry, lookups: Lookups): string {
    Join(Present([if |names| > 0 then Some(EditorsPart(names)) else None, ParentTitle(parent, lookups)]), ", ")
  }

  /** The body opens with its head. */
  lemma ContainerBodyStartsWithHead(names: seq<string>, parent: Entry, e: Entry, lookups: Lookups)
    ensures StartsWith(ContainerBody(names, parent, e, lookups), ContainerHead(names, parent, lookups))
  {
    var head := ContainerHead(names, parent, lookups);
    ContainerBodyIsHead(names, parent, e, lookups);
    if parent.title.None? {
      PrefixOfAppend(head, ".");
      PrefixOfAppend(head, "");
      assert head + "" == head;
    } else if parent.volume.Some? || parent.edition.Some? {
      PrefixOfAppend(head + " ", EdVolStr(e, lookups));
      PrefixOfAppend(head, " ");
    } else {
      assert Terminate(head)[..|head|] == head;
    }
  }

  /**
   The flag-threading body is its head followed by one ending: the child
   entry's edition/volume parenthetical after a space when the parent has a
   volume or an edition, the sentence terminator otherwise, and a lone period
   for editors without a title.
   */
  lemma ContainerBodyIsHead(names: seq<string>, parent: Entry, e: Entry, lookups: Lookups)
    ensures var head := ContainerHead(names, parent, lookups);
      ContainerBody(names, parent, e, lookups)
        == if parent.title.None? then (if |names| > 0 then head + "." else head)
           else if parent.volume.Some? || parent.edition.Some? then head + " " + EdVolStr(e, lookups)
           else Terminate(head)
  {
    var a := if |names| > 0 then Some(EditorsPart(names)) else None;
    PairJoin(a, ParentTitle(parent, lookups));
  }

  /** Two optional clauses joined by ", ": the separator only between two present ones. */
  lemma PairJoin(a: Option<string>, b: Option<string>)
    ensures Join(Present([a, b]), ", ")
      == (if a.Some? then a.value else "") + (if a.Some? && b.Some? then ", " else "") + (if b.Some? then b.value else "")
  {
    PresentThree(a, b, None);
    var ps := Present([a, b]);
    if a.Some? && b.Some? {
      assert ps == [a.value, b.value];
      assert [a.value, b.value][..1] == [a.value];
    } else if a.Some? {
      assert ps == [a.value];
    } else if b.Some? {
      assert ps == [b.value];
    }
  }

  /**
   The body is empty exactly without editors and title; it always starts with
   the editors part, and with the comma-join of the editors part and the
   parent's sentence-cased title.
   */
  lemma ContainerBodyShape(names: seq<string>, parent: Entry, e: Entry, lookups: Lookups)
    ensures var body := ContainerBody(names, parent, e, lookups);
      && (body != "" <==> |names| > 0 || parent.title.Some?)
      && StartsWith(body, EditorsPart(names))
      && StartsWith(body, ContainerHead(names, parent, lookups))
  {
    ContainerBodyStartsWithHead(names, parent, e, lookups);
    var editors := EditorsPart(names);
    var comma := |names| > 0;
    if parent.title.Some? {
      var mid := (if comma then ", " else "") + lookups.sentenceCase(parent.title.value);
      Framed(editors, mid, "");
      var t := editors + mid + "";
      if parent.volume.Some? || parent.edition.Some? {
        Framed(t, " " + EdVolStr(e, lookups), "");
      } else {
        Framed(t, Terminate(t)[|t|..], "");
        assert Terminate(t) == t + Terminate(t)[|t|..];
      }
    } else if comma {
      Framed(editors, ".", "");
    }
  }

  /**
   With a parent title, the body ends in a space and the child entry's
   edition/volume parenthetical when the parent has a volume or an edition,
   and otherwise ends a sentence; a child with neither edition nor volume
   leaves a trailing space. Editors without a title are closed by a period.
   */
  lemma ContainerBodyClose(names: seq<string>, parent: Entry, e: Entry, lookups: Lookups)
    ensures var body := ContainerBody(names, parent, e, lookups);
      && (parent.title.Some? && (parent.volume.Some? || parent.edition.Some?) ==>
            EndsWith(body, " " + EdVolStr(e, lookups)))
      && ((parent.title.Some? && (parent.volume.Some? || parent.edition.Some?)
           && e.edition.None? && e.volume.None?) ==> body[|body| - 1] == ' ')
      && (parent.title.Some? && parent.volume.None? && parent.edition.None? ==> EndsSentence(body))
      && (parent.title.None? && |names| > 0 ==> body == EditorsPart(names) + ".")
  {
    var body := ContainerBody(names, parent, e, lookups);
    if parent.title.Some? {
      var t := EditorsPart(names) + (if |names| > 0 then ", " else "") + lookups.sentenceCase(parent.title.value);
      if parent.volume.Some? || parent.edition.Some? {
        var tail := " " + EdVolStr(e, lookups);
        assert body == t + " " + EdVolStr(e, lookups);
        AppendAssoc(t, " ", EdVolStr(e, lookups));
        assert body == t + tail;
        assert body[|body| - |tail|..] == tail;
        if e.edition.None? && e.volume.None? {
          assert tail == " ";
        }
      } else {
        assert body == Terminate(t);
      }
    }
  }

  /** One editor is marked "(Ed.)", several "(Eds.)" after their ampersand list. */
  lemma EditorsPartMarks(persons: seq<Person>)
    ensures |persons| == 1 ==> EditorsPart(NameList(persons)) == RenderName(persons[0]) + " (Ed.)"
    ensures |persons| >= 2 ==> EditorsPart(NameList(persons)) == AmpersandList(NameList(persons)) + " (Eds.)"
  {
  }

  /** "In " before a non-empty body keeps whatever the body starts with; the tail stays last. */
  lemma Introduced(body: string, editors: string, tail: string)
    requires StartsWith(body, editors)
    ensures var r := (if body == "" then "" else "In " + body) + tail;
      && (body != "" ==> StartsWith(r, "In " + editors))
      && EndsWith(r, tail)
      && (body == "" ==> r == tail)
  {
    if body != "" {
      var r := "In " + body + tail;
      assert r[..3 + |editors|] == "In " + body[..|editors|];
      Framed("In " + body, "", tail);
    } else {
      Framed("", "", tail);
    }
  }

  /** A container clause with editors opens with "In " and the editors part. */
  lemma ContainerClauseEditors(persons: seq<Person>, parent: Entry, e: Entry, lookups: Lookups)
    requires |persons| > 0
    ensures StartsWith(ContainerClause(persons, parent, e, lookups), "In " + EditorsPart(NameList(persons)))
  {
    var names := NameList(persons);
    var body := ContainerBody(names, parent, e, lookups);
    ContainerBodyShape(names, parent, e, lookups);
    Introduced(body, EditorsPart(names), PublisherTail(parent));
  }

  /**
   A container clause opens with "In " exactly when it has editors or a
   parent title, and then with the editors and the sentence-cased parent
   title joined by ", "; a publisher (else an organization) closes it.
   */
  lemma ContainerClauseShape(persons: seq<Person>, parent: Entry, e: Entry, lookups: Lookups)
    ensures var r := ContainerClause(persons, parent, e, lookups);
      && ((|persons| > 0 || parent.title.Some?) <==> StartsWith(r, "In "))
      && ((|persons| > 0 || parent.title.Some?) ==>
            StartsWith(r, "In " + ContainerHead(NameList(persons), parent, lookups)))
      && (PublisherOrOrganization(parent).Some? ==>
            EndsWith(r, " " + PublisherOrOrganization(parent).value + "."))
  {
    ContainerClauseOpens(persons, parent, e, lookups);
    if |persons| > 0 || parent.title.Some? {
      ContainerClauseHead(persons, parent, e, lookups);
    }
  }

  /** "In " opens the clause exactly when there are editors or a parent title. */
  lemma ContainerClauseOpens(persons: seq<Person>, parent: Entry, e: Entry, lookups: Lookups)
    ensures (|persons| > 0 || parent.title.Some?) <==> StartsWith(ContainerClause(persons, parent, e, lookups), "In ")
  {
    var r := ContainerClause(persons, parent, e, lookups);
    if |persons| > 0 || parent.title.Some? {
      var opening := "In " + ContainerHead(NameList(persons), parent, lookups);
      ContainerClauseHead(persons, parent, e, lookups);
      assert r[..3] == opening[..3] == "In ";
    } else {
      var tail := PublisherTail(parent);
      assert r == tail;
      assert tail == "" || tail[0] == ' ';
    }
  }

  /** A clause with editors or a parent title opens with "In " and the comma-joined editors and title. */
  lemma ContainerClauseHead(persons: seq<Person>, parent: Entry, e: Entry, lookups: Lookups)
    requires |persons| > 0 || parent.title.Some?
    ensures StartsWith(ContainerClause(persons, parent, e, lookups), "In " + ContainerHead(NameList(persons), parent, lookups))
  {
    var names := NameList(persons);
    var head := ContainerHead(names, parent, lookups);
    ContainerBodyStartsWithHead(names, parent, e, lookups);
    Introduced(ContainerBody(names, parent, e, lookups), head, PublisherTail(parent));
  }

  /** Regrouping the parts of a prefix does not change what a string starts with. */
  lemma StartsWithRegroup(r: string, a: string, b: string, c: string)
    requires StartsWith(r, a + (b + c))
    ensures StartsWith(r, a + b + c)
  {
    AppendAssoc(a, b, c);
  }

  /** A single editor is introduced as "In <name> (Ed.)". */
  lemma ContainerClauseOneEditor(persons: seq<Person>, parent: Entry, e: Entry, lookups: Lookups)
    requires |persons| == 1
    ensures StartsWith(ContainerClause(persons, parent, e, lookups), "In " + RenderName(persons[0]) + " (Ed.)")
  {
    ContainerClauseEditors(persons, parent, e, lookups);
    EditorsPartMarks(persons);
    StartsWithRegroup(ContainerClause(persons, parent, e, lookups), "In ", RenderName(persons[0]), " (Ed.)");
  }

  /** Several editors are introduced as "In <ampersand list> (Eds.)". */
  lemma ContainerClauseManyEditors(persons: seq<Person>, parent: Entry, e: Entry, lookups: Lookups)
    requires |persons| >= 2
    ensures StartsWith(ContainerClause(persons, parent, e, lookups), "In " + AmpersandList(NameList(persons)) + " (Eds.)")
  {
    ContainerClauseEditors(persons, parent, e, lookups);
    EditorsPartMarks(persons);
    StartsWithRegroup(ContainerClause(persons, parent, e, lookups), "In ", AmpersandList(NameList(persons)), " (Eds.)");
  }

  /** The executive producers among a parent's affiliated persons, in order. */
  function ExecutiveProducers(affiliated: seq<(seq<Person>, PersonRole)>): (ps: seq<Person>)
    ensures forall p :: p in ps <==>
      exists i :: 0 <= i < |affiliated| && affiliated[i].1 == ExecutiveProducer && p in affiliated[i].0
  {
    if |affiliated| == 0 then []
    else
      var init := affiliated[..|affiliated| - 1];
      var last := affiliated[|affiliated| - 1];
      assert forall i :: 0 <= i < |init| ==> init[i] == affiliated[i];
      ExecutiveProducers(init) + (if last.1 == ExecutiveProducer then last.0 else [])
  }

  /** Producers of concatenated affiliations are the producers of each part, in order. */
  lemma {:induction false} ExecutiveProducersAppend(a: seq<(seq<Person>, PersonRole)>, b: seq<(seq<Person>, PersonRole)>)
    ensures ExecutiveProducers(a + b) == ExecutiveProducers(a) + ExecutiveProducers(b)
  {
    if |b| == 0 {
      assert a + b == a;
    } else {
      var ab := a + b;
      var bInit := b[..|b| - 1];
      assert ab[..|ab| - 1] == a + bInit;
      assert ab[|ab| - 1] == b[|b| - 1];
      ExecutiveProducersAppend(a, bInit);
    }
  }

  /** One affiliated group contributes all its persons, in order, exactly when it has the executive-producer role. */
  lemma ExecutiveProducersSingle(group: (seq<Person>, PersonRole))
    ensures ExecutiveProducers([group]) == (if group.1 == ExecutiveProducer then group.0 else [])
  {
    assert [group][..0] == [];
  }

  /** Affiliated persons of which none is an executive producer yield no producer. */
  lemma {:induction false} NoExecutiveProducers(affiliated: seq<(seq<Person>, PersonRole)>)
    requires forall i :: 0 <= i < |affiliated| ==> affiliated[i].1 != ExecutiveProducer
    ensures ExecutiveProducers(affiliated) == []
  {
    if |affiliated| > 0 {
      var init := affiliated[..|affiliated| - 1];
      assert forall i :: 0 <= i < |init| ==> init[i] == affiliated[i];
      NoExecutiveProducers(init);
    }
  }

  /** The TV arm's people: the parent's executive producers, or the entry's authors when the parent has no affiliated persons. */
  function Producers(e: Entry, parent: Entry): (ps: seq<Person>)
    ensures parent.affiliated.None? ==> ps == e.authors
    ensures parent.affiliated.Some? ==> ps == ExecutiveProducers(parent.affiliated.value)
    ensures parent.affiliated.Some? ==> forall p :: p in ps <==>
      exists i :: 0 <= i < |parent.affiliated.value| && parent.affiliated.value[i].1 == ExecutiveProducer
        && p in parent.affiliated.value[i].0
  {
    if parent.affiliated.Some? then ExecutiveProducers(parent.affiliated.value) else e.authors
  }

  /** Affiliated persons without an executive producer give an empty list; the entry's authors are not used. */
  lemma ProducersFallBackOnlyWithoutAffiliated(e: Entry, parent: Entry)
    requires parent.affiliated.Some?
    requires forall i :: 0 <= i < |parent.affiliated.value| ==> parent.affiliated.value[i].1 != ExecutiveProducer
    ensures Producers(e, parent) == []
  {
    NoExecutiveProducers(parent.affiliated.value);
  }

  /** The archive, else the organization, period-terminated; nothing without either. */
  function ThesisClause(e: Entry): (r: string)
    ensures var place := e.archive.OrElse(e.organization);
      r == if place.Some? then place.value + "." else ""
  {
    if e.archive.Some? then e.archive.value + "."
    else if e.organization.Some? then e.organization.value + "."
    else ""
  }

  /** The archive, period-terminated; nothing without one. */
  function ManuscriptClause(e: Entry): (r: string)
    ensures r == "" <==> e.archive.None?
    ensures e.archive.Some? ==> r == e.archive.value + "."
  {
    if e.archive.Some? then e.archive.value + "." else ""
  }

  /** The publisher, else the organization, period-terminated; nothing without either. */
  function GenericClause(e: Entry): (r: string)
    ensures e.publisher.Some? ==> r == e.publisher.value + "."
    ensures e.publisher.None? && e.organization.Some? ==> r == e.organization.value + "."
    ensures e.publisher.None? && e.organization.None? ==> r == ""
  {
    var publisher := PublisherOrOrganization(e);
    if publisher.Some? then publisher.value + "." else ""
  }

  /** The venue clause for the entry's source shape; the art, web, news and talk shapes add nothing. */
  function SourceClause(e: Entry, c: Checks, lookups: Lookups): (r: string)
    requires ChecksFit(c, |e.parents|)
    ensures var st := ForEntry(e, c);
      && (st.PeriodicalItem? ==>
            r == ClauseList([ParentTitle(e.parents[st.parent], lookups), VolumeIssue(e.parents[st.parent]), Locator(e)]))
      && (st.CollectionItem? ==>
            r == ContainerClause(e.parents[st.parent].editors.GetOr([]), e.parents[st.parent], e, lookups))
      && (st.TvSeries? ==>
            r == ContainerClause(Producers(e, e.parents[st.parent]), e.parents[st.parent], e, lookups))
      && (st.Thesis? ==> r == ThesisClause(e))
      && (st.Manuscript? ==> r == ManuscriptClause(e))
      && (st.Generic? ==> r == GenericClause(e))
      && ((st.ArtContainer? || st.StandaloneArt? || st.StandaloneWebItem? || st.WebItem?
           || st.NewsItem? || st.ConferenceTalk?) ==> r == "")
  {
    match ForEntry(e, c)
    case PeriodicalItem(p) =>
      PeriodicalClauseIsClauseList(e, e.parents[p], lookups);
      PeriodicalClause(e, e.parents[p], lookups)
    case CollectionItem(p) => ContainerClause(e.parents[p].editors.GetOr([]), e.parents[p], e, lookups)
    case TvSeries(p) => ContainerClause(Producers(e, e.parents[p]), e.parents[p], e, lookups)
    case Thesis => ThesisClause(e)
    case Manuscript => ManuscriptClause(e)
    case ArtContainer(_) => ""
    case StandaloneArt => ""
    case StandaloneWebItem => ""
    case WebItem(_) => ""
    case NewsItem(_) => ""
    case ConferenceTalk(_) => ""
    case Generic => GenericClause(e)
  }
}
