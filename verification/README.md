# APA reference formatting in hayagriva

This project models the APA 7 reference formatter of hayagriva (`src/output/apa.rs`) in Dafny and proves properties about the model. The formatter renders a bibliography entry piece by piece:

- the author list;
- the date in parentheses;
- the title with its edition/volume or multivolume ending;
- the retrieval note for a URL;
- the venue ("source") clause, chosen by classifying the entry into a source shape such as a periodical item, a chapter in a collection or an episode of a TV series.

All of it is pure string construction over an immutable entry. The model therefore consists of immutable datatypes and total functions on `seq<char>`.

Layout:

- `options.dfy`: `Option` with the `or_else` and `unwrap_or` used by the formatter.
- `text.dfy`: decimal rendering and reading of numbers, four-digit zero padding, joining with a separator, the sentence terminator, and prefix/suffix predicates.
- `entries.dfy`: the entry record and its people, dates, ranges and URLs. It also holds the outcomes of the entry-type pattern checks (`Checks`) and the external lookups (`Lookups`).
- `classifier.dfy`: `SourceType` and `for_entry`. The classifier is also written as a rule table evaluated first-match-wins, and is proved equal to the chain of early returns.
- `names.dfy`: `name_list`, `ampersand_list` and `get_author`. The `ampersand_list` loop is proved equal to a closed form (`AmpersandReference`).
- `fragments.dfy`: `format_range` and `ed_vol_str`. An unlabelled range is proved to read back as the same range.
- `segments.dfy`: `get_date`, `get_retreival_date` and `get_title`.
- `source.dfy`: the venue clause built by each arm of `get_source`. The periodical arm's comma flags are proved equal to a comma-join of the clauses that are present.

`get_source` ends in `todo!()` and never returns. The model is therefore the value of the running string `res` once the match over the source shape has finished. No full reference string is assembled, because the code assembles none.

Three behaviours of `apa.rs` are easy to miss; the model keeps each as the code writes it:

- **Lists of more than twenty names.** `ampersand_list` writes the first nineteen names, then `"... "`, then `", "`, then the last name. For exactly 21 names it also writes `"& "` before the last name, because index 19 is then the second-to-last index. The ellipsis is therefore never directly followed by the last name.
- **Fallback to the entry's authors in the TV-series arm.** The arm uses the entry's authors only when the parent has no affiliated-persons list at all. A list with no executive producer gives no producers; it does not fall back to the authors.
- **Which entry's edition and volume are used.** The collection and TV-series arms append a space and then the child entry's edition/volume parenthetical. They do this when the parent has a volume or an edition, even if the child has neither, in which case the text ends in a bare space.

## Model

| member | source | states |
|---|---|---|
| Classifier.ForEntry | src/output/apa.rs:32-127 | Every parent-carrying shape holds an index into the entry's parents. `NewsItem` is never produced. `TvSeries` is produced only when both issue and volume are present. |
| Classifier.ForEntryIsFirstMatch | src/output/apa.rs:85-126 | The chain of early returns equals first-match evaluation of the ordered rule table: periodical, collection a/b/c/d, tv (only with issue and volume), thesis, manuscript, art container, art, web standalone, web a/b, talk, then `Generic`. |
| Classifier.FirstMatchPrecedence | src/output/apa.rs:85-126 | In the rule table, the first succeeding rule decides whatever later rules report. |
| Classifier.FirstMatchFallback | src/output/apa.rs:125 | When no candidate is itself `Generic`, the fallback is chosen if and only if no rule succeeds. |
| Classifier.ForEntryFirstSuccessWins | src/output/apa.rs:85-123 | If rule k succeeds and every earlier rule fails, the shape is rule k's candidate, carrying the index that rule's check returned. |
| Classifier.ForEntryGenericIff | src/output/apa.rs:85-126 | `Generic` is returned if and only if every rule of the table fails; a successful TV-series check without both issue and volume counts as failing. |
| Classifier.TvSeriesNeedsIssueAndVolume | src/output/apa.rs:96-100 | Without both issue and volume, a successful TV-series check changes nothing: the cascade continues as if it had failed. |
| Classifier.PeriodicalPrecedes | src/output/apa.rs:85-87 | A successful periodical check decides the shape whatever the other checks report. |
| Classifier.NoParentsNoParentShape | src/output/apa.rs:85-126 | An entry without parents never gets a parent-carrying shape. |
| Names.RenderNameParts | src/output/apa.rs:143-167 | A rendered name starts with the prefixed family name and ends with the suffix, or else with the initials. Its length is exactly that of its present parts plus their ", " separators, and it is exactly the present parts (family part, initials, suffix) joined by ", ". |
| Names.RenderNameIsJoin | src/output/apa.rs:147-161 | `{prefix }{family}[, {initials}][, {suffix}]`: the rendered name is the comma-join of the present parts, in that order. |
| Names.NameList | src/output/apa.rs:143-167 | There is one rendered name per person, in input order. |
| Names.EmittedPrefix | src/output/apa.rs:173-191 | Until the separator before the second-to-last name, each loop iteration appends its name and ", ", so the first k iterations give the first k names each followed by ", ". |
| Names.EmittedSkipsMiddle | src/output/apa.rs:173-177 | In a list of more than twenty names, the iterations from index 20 up to the second-to-last append nothing. |
| Names.AmpersandLoopIsReference | src/output/apa.rs:169-194 | The loop, iteration by iteration, produces the closed form. Up to twenty names are joined by ", " with "& " before the last. Longer lists keep the first nineteen names, then an ellipsis slot ("... , & " for exactly 21 names, "... , " beyond), then the last name. |
| Names.AmpersandList | src/output/apa.rs:169-194 | `ampersand_list` equals the closed form: "" for no names, the name itself for one name, and head + link + last name otherwise. |
| Names.AmpersandListEnds | src/output/apa.rs:173-190 | The last name always closes the list. A list longer than twenty names opens with its first nineteen names joined by ", " followed by ", ... , ". |
| Names.AmpersandListDropsMiddle | src/output/apa.rs:173-176 | In lists longer than twenty names, the names between index 19 and the last never affect the output. |
| Names.AmpersandCount | src/output/apa.rs:183-189 | When no name contains '&', the output contains exactly one '&' for 2 to 21 names and none otherwise. |
| Names.LinkAmpersands | src/output/apa.rs:178-189 | The text linking the kept names to the last name carries one '&' up to 21 names and none beyond. |
| Names.AmpersandListTwoAndThree | src/output/apa.rs:169-194 | Two names give "A, & B" and three give "A, B, & C". |
| Names.GetAuthor | src/output/apa.rs:228-231 | The author segment is the closed-form list of the rendered authors. |
| Names.GetAuthorThreeAuthors | src/output/apa.rs:560-579 | The unit test's three authors render as "van de Graf, J., Günther, H.-J., & Mädje, L. E.". |
| Fragments.FormatRange | src/output/apa.rs:130-141 | The output is exactly the singular label (equal bounds) or the plural label (different bounds), a space when the singular label is non-empty, and then the bounds: the start alone when the bounds are equal, otherwise start, en dash, end. It ends with the end bound. With labels free of en dashes, an en dash appears if and only if the bounds differ. |
| Fragments.FormatRangeRoundTrip | src/output/apa.rs:130-141 | An unlabelled range (as pages and periodical volumes are written) reads back as the same range. |
| Fragments.ParseSpan | src/output/apa.rs:137-139 | "start–end" reads back as the pair of bounds. |
| Fragments.VolumeTextExamples | src/output/apa.rs:130-141 | Bounds 3 and 3 give "Vol. 3"; bounds 3 and 5 give "Vols. 3–5". |
| Fragments.EdVolStr | src/output/apa.rs:196-218 | The parenthetical is empty if and only if the entry has neither an edition nor a volume. |
| Fragments.EdVolStrIsJoin | src/output/apa.rs:196-218 | The four match arms are one rule: the present parts (the edition followed by " ed.", then the volume text) joined by ", ", between " (" and ").", and "" when neither part is present. |
| Fragments.EdVolStrShape | src/output/apa.rs:196-218 | A non-empty parenthetical opens with " (" and closes with ").". The edition comes first, through the ordinal lookup for a number and verbatim for text, followed by " ed.". The volume comes last. |
| Fragments.EdVolStrEditionFirst | src/output/apa.rs:212-217 | With an edition, the output opens with " (", the edition and " ed.", and closes with ").". |
| Fragments.EdVolStrVolumeLast | src/output/apa.rs:212-217 | With a volume, the output opens with " (" and closes with the volume text and ").". |
| Fragments.EdVolStrSecondEditionFourthVolume | src/output/apa.rs:196-218 | Edition 2 of volume 4 gives " (2nd ed., Vol. 4).". |
| Segments.GetDate | src/output/apa.rs:233-252 | The output is "(n. d.)" if and only if there is no date. It always opens with "(" and closes with ")". |
| Segments.GetDateYearOnly | src/output/apa.rs:237-238 | Without a month the output is "(YYYY)", whatever the day. |
| Segments.GetDateMonth | src/output/apa.rs:239-247 | With a month, the output opens with the zero-padded year, ", " and the month name. |
| Segments.GetDateDay | src/output/apa.rs:242-247 | With a month and a day, the output closes with a space, the day and ")". |
| Segments.GetDateForms | src/output/apa.rs:236-248 | With a month, the output is exactly "(YYYY, Month)", and "(YYYY, Month D)" with a day, where YYYY is the year padded to four digits. |
| Segments.GetDateYearFirst | src/output/apa.rs:236-248 | A dated entry opens with "(" and its year padded to four digits. |
| Segments.GetDateYearReadsBack | src/output/apa.rs:236-248 | For a year below 10000, the four characters after "(" are digits that read back as the year. |
| Segments.RetrievedText | src/output/apa.rs:259-275 | The retrieval sentence is parenthesised if and only if the visit date has month and day. The full form is framed by "(Retrieved " and ", from URL)". The other forms start with "Retrieved " and end with ", from URL". A year alone gives "Retrieved YYYY, from URL". |
| Segments.RetrievedTextForms | src/output/apa.rs:259-275 | With a month but no day the sentence is exactly "Retrieved Month YYYY, from URL". With a month and a day it is exactly "(Retrieved Month D, YYYY, from URL)". In both, the month comes before the year, the reverse of the author date. |
| Segments.GetRetrievalDate | src/output/apa.rs:254-284 | The result is none if and only if there is no URL. Without a visit date it is the bare URL; otherwise it is the retrieval sentence. |
| Segments.TitleFormOf | src/output/apa.rs:289-325 | Exactly one title ending applies, in precedence order: multivolume when a multivolume parent matched and a volume exists; otherwise the edition/volume parenthetical for book-like types with a volume or an edition; otherwise the plain terminator. |
| Segments.GetTitle | src/output/apa.rs:286-338 | The result is none if and only if there is no title, and it always ends a sentence. The multivolume form is "{parent}: {volumes} {title}.". The book-like form is the title and the edition/volume parenthetical. The plain form is the terminated title. |
| Segments.GetTitleKeepsTitle | src/output/apa.rs:313-332 | The entry's title opens the result, except in the multivolume form, where it closes the result before the final period. |
| Segments.MultivolumeAlwaysAddsPeriod | src/output/apa.rs:316-321 | A multivolume title gets a period even when it already ends a sentence. |
| Segments.EmptyPlainTitle | src/output/apa.rs:326-332 | An empty title with the plain ending becomes ".". |
| Text.Terminate | src/output/apa.rs:326-332 | A period is appended exactly when the text does not already end in '?', '.' or '!'. The result always ends a sentence, and an empty text becomes ".". |
| Text.PadZero4 | src/output/apa.rs:238 | `{:04}` gives a digit string of at least four characters (exactly four below 10000) that reads back as the number. A rendering already four or more digits long is kept unchanged, with no leading zeros added. |
| Text.DecimalRoundTrip | src/output/apa.rs:238 | The decimal rendering of a number reads back as the number. |
| Source.PeriodicalClause | src/output/apa.rs:346-388 | The periodical arm is empty if and only if the parent has no title, volume or issue and the entry has no article number or page range. |
| Source.PeriodicalClauseIsClauseList | src/output/apa.rs:346-388 | The flag-threaded periodical arm equals the comma-join of the present clauses (sentence-cased parent title, volume(issue), article number or pages), closed by a period when any is present. |
| Source.PeriodicalClauseEmpty | src/output/apa.rs:346-388 | The periodical arm is empty if and only if the parent has no title, volume or issue and the entry has no article number or page range. Otherwise it ends with a period. |
| Source.PeriodicalClauseLocatorLast | src/output/apa.rs:371-383 | The article number, preferred over the page range, closes the periodical clause before its period. |
| Source.ContainerBody | src/output/apa.rs:390-429 | The editors-and-title text is empty if and only if there are no editors and no parent title. |
| Source.ContainerBodyIsHead | src/output/apa.rs:390-429 | The flag-threaded text equals its head (the editors part and the sentence-cased parent title, joined by ", ") followed by exactly one ending. The ending is " " and the child's edition/volume parenthetical when the parent has a volume or an edition, and the sentence terminator otherwise. Editors without a title get a lone ".". |
| Source.ContainerBodyStartsWithHead | src/output/apa.rs:390-425 | The text opens with the editors part, then ", " when there are editors and a title, then the sentence-cased parent title. |
| Source.ContainerBodyShape | src/output/apa.rs:390-429 | The editors-and-title text is empty if and only if there are no editors and no parent title. It starts with the editors part, and with the editors part and the sentence-cased parent title joined by ", ". |
| Source.ContainerBodyClose | src/output/apa.rs:407-429 | With a parent title, the text ends in a space and the child entry's edition/volume parenthetical when the parent has a volume or an edition (a bare trailing space when the child has neither), and otherwise ends a sentence. Editors without a title are closed by a period. |
| Source.ContainerClause | src/output/apa.rs:389-446 | The clause is "In " and the editors-and-title text (whose head and ending `ContainerBodyIsHead` fixes), or nothing when that text is empty, followed by the publisher tail. It ends with the publisher tail (" {publisher or organization}." or nothing). It is that tail alone if and only if there are no editors and no parent title. |
| Source.ContainerClauseOpens | src/output/apa.rs:427-433 | The clause opens with "In " if and only if there are editors or a parent title. |
| Source.ContainerClauseHead | src/output/apa.rs:390-433 | With editors or a parent title, the clause opens with "In ", the editors part, ", " when both are present, and the sentence-cased parent title. |
| Source.ContainerClauseShape | src/output/apa.rs:389-446 | The collection/TV clause opens with "In " if and only if there are editors or a parent title. It then continues with the editors part and the sentence-cased parent title joined by ", ". The parent's publisher, or else its organization, closes it followed by a period. |
| Source.ContainerClauseEditors | src/output/apa.rs:390-432 | With editors, the clause opens with "In " and the editors part. |
| Source.ContainerClauseOneEditor | src/output/apa.rs:394-397 | One editor is written "In {name} (Ed.)". |
| Source.ContainerClauseManyEditors | src/output/apa.rs:398-401 | Several editors are written "In {ampersand list} (Eds.)". |
| Source.ExecutiveProducers | src/output/apa.rs:448-456 | A person is among the producers if and only if they belong to an affiliated group whose role is executive producer. |
| Source.ExecutiveProducersAppend | src/output/apa.rs:448-456 | The producers of concatenated affiliation lists are the producers of each list, in order, with repeats kept. |
| Source.ExecutiveProducersSingle | src/output/apa.rs:450-455 | One affiliated group contributes all its persons in order when its role is executive producer, and nothing otherwise. |
| Source.Producers | src/output/apa.rs:448-457 | Without an affiliated-persons list the producers are the entry's authors. With one, they are exactly the executive producers of that list, in order and with repeats (a person is a producer if and only if they belong to an executive-producer group). |
| Source.NoExecutiveProducers | src/output/apa.rs:448-456 | Affiliated persons with no executive-producer group yield no producers. |
| Source.ProducersFallBackOnlyWithoutAffiliated | src/output/apa.rs:448-457 | A parent with affiliated persons but no executive producers gives an empty producer list; the entry's authors are not used. |
| Source.ThesisClause | src/output/apa.rs:515-523 | The archive, or else the organization, followed by "."; nothing when both are absent. |
| Source.ManuscriptClause | src/output/apa.rs:524-529 | The archive followed by "."; nothing, and only then, when there is no archive. |
| Source.GenericClause | src/output/apa.rs:536-546 | The publisher, or else the organization, followed by "."; nothing when both are absent. |
| Source.SourceClause | src/output/apa.rs:340-547 | For each source shape, the clause is the periodical comma-join, the collection clause with the parent's editors, or the TV clause with the producers. The thesis, manuscript and generic arms are the archive/organization, archive, and publisher/organization clauses. The six stub arms give "". |

## Left out

- The entry-type pattern matcher (`check_with_spec`, `EntryTypeSpec`, `EntryTypeModality`) lives in `crate::types` and is not part of this model. Each check's outcome is an input (`Checks`): the index of the matching parent, or a flag. The precondition `ChecksFit` says every reported index is in range. The entry's own type tag is not modelled, because only the checks read it.
- `Person::get_initials`, `get_ordinal`, `get_month_name` and the sentence-case transformer are not part of this model. They are passed in as functions (`Lookups`), and a person's initials are a field of `Person`.
- Entry field accessors are `Option` fields of the `Entry` datatype. Parents are a sequence of entries; the source's references to parents become indices into it.
- A missing month name or a missing multivolume parent title makes the source panic in `unwrap()`. The model states these as preconditions (`MonthNamed`, `TitleDefined`).
- Numbers are non-negative (`nat`). Display formatting of negative or signed values and the `i64` conversions in `ampersand_list` do not arise.
- `get_source` ends in `todo!()`. The model gives the value of `res` after the match and does not assemble a full reference.
- The six empty arms (art container, standalone art, standalone web item, web item, news item, talk) give "", as in the source.
- The `ApaBibliographyGenerator` struct and its index into a slice of entries are not modelled. Each segment function takes the entry directly.
