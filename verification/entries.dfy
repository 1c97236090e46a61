/**
 The immutable bibliographic record the APA formatter reads, with every field
 accessor's "present or absent" answer as an `Option`, plus the two kinds of
 external input the formatter consults: the results of the entry-type
 pattern checks, and the locale lookups and case transform.
 */
module Entries {
  import opened Options
  import Text

  /** A person as the formatter sees it; `initials` is what the person's
      initials lookup yields with "." as the delimiter, when the given name is known. */
  datatype Person = Person(
    family: string,
    prefix: Option<string>,
    initials: Option<string>,
    suffix: Option<string>)

  datatype PersonRole = ExecutiveProducer | OtherRole

  /** A calendar date; month and day are optional. */
  datatype Date = Date(year: nat, month: Option<nat>, day: Option<nat>)

  /** A numeric range as stored for volumes and pages; `start == end` is a single value. */
  datatype NumRange = NumRange(start: nat, end: nat)

  datatype NumOrStr = Number(n: nat) | Str(s: string)

  datatype QualifiedUrl = QualifiedUrl(value: string, visitDate: Option<Date>)

  datatype Entry = Entry(
    parents: seq<Entry>,
    title: Option<string>,
    authors: seq<Person>,
    editors: Option<seq<Person>>,
    affiliated: Option<seq<(seq<Person>, PersonRole)>>,
    date: Option<Date>,
    volume: Option<NumRange>,
    issue: Option<NumOrStr>,
    edition: Option<NumOrStr>,
    pageRange: Option<NumRange>,
    serialNumber: Option<string>,
    url: Option<QualifiedUrl>,
    publisher: Option<string>,
    organization: Option<string>,
    archive: Option<string>)

  /** `Display` of a number-or-string value. */
  function NumOrStrText(v: NumOrStr): string {
    match v
    case Number(n) => Text.NatToString(n)
    case Str(s) => s
  }

  /**
   The outcome of each entry-type pattern check the formatter runs on one
   entry. A check that relates the entry to a parent yields the index of the
   first matching parent; a check on the entry's own type alone yields a flag.
   */
  datatype Checks = Checks(
    periodical: Option<nat>,
    collectionA: Option<nat>,
    collectionB: Option<nat>,
    collectionC: Option<nat>,
    collectionD: Option<nat>,
    tvSeries: Option<nat>,
    thesis: bool,
    manuscript: bool,
    artContainer: Option<nat>,
    art: bool,
    webStandalone: bool,
    webContainedA: Option<nat>,
    webContainedB: Option<nat>,
    talk: Option<nat>,
    multivolume: Option<nat>,
    book: bool)

  predicate IndexFits(o: Option<nat>, count: nat) {
    o.Some? ==> o.value < count
  }

  /** Every parent index a check reports points into a parent list of length `count`. */
  predicate ChecksFit(c: Checks, count: nat) {
    && IndexFits(c.periodical, count)
    && IndexFits(c.collectionA, count)
    && IndexFits(c.collectionB, count)
    && IndexFits(c.collectionC, count)
    && IndexFits(c.collectionD, count)
    && IndexFits(c.tvSeries, count)
    && IndexFits(c.artContainer, count)
    && IndexFits(c.webContainedA, count)
    && IndexFits(c.webContainedB, count)
    && IndexFits(c.talk, count)
    && IndexFits(c.multivolume, count)
  }

  /** The English ordinal and month-name lookups and the sentence-case transform. */
  datatype Lookups = Lookups(
    ordinal: nat -> string,
    monthName: nat -> Option<string>,
    sentenceCase: string -> string)
}
