/**
 Person names in APA reference style: one string per person, and the
 author list joined with commas, an ampersand before the last name, and an
 ellipsis once the list is longer than twenty names.
 */
module Names {
  import opened Options
  import opened Text
  import opened Entries

  /** The family name, preceded by the name prefix and a space when there is one. */
  function FamilyPart(p: Person): string {
    if p.prefix.Some? then p.prefix.value + " " + p.family else p.family
  }

  /** One person as `{prefix }{family}[, {initials}][, {suffix}]`. */
  function RenderName(p: Person): string {
    var withInitials := if p.initials.Some? then FamilyPart(p) + ", " + p.initials.value else FamilyPart(p);
    if p.suffix.Some? then withInitials + ", " + p.suffix.value else withInitials
  }

  /**
   A rendered name starts with the prefixed family name, ends with the suffix
   when there is one (else with the initials when there are some), and is
   exactly as long as its present parts with their ", " separators: it is
   the comma-join of the family part, the initials and the suffix.
   */
  lemma RenderNameParts(p: Person)
    ensures StartsWith(RenderName(p), FamilyPart(p))
    ensures p.suffix.Some? ==> EndsWith(RenderName(p), ", " + p.suffix.value)
    ensures p.suffix.None? && p.initials.Some? ==> EndsWith(RenderName(p), ", " + p.initials.value)
    ensures p.suffix.None? && p.initials.None? ==> RenderName(p) == FamilyPart(p)
    ensures |RenderName(p)| == |FamilyPart(p)|
      + (if p.initials.Some? then 2 + |p.initials.value| else 0)
      + (if p.suffix.Some? then 2 + |p.suffix.value| else 0)
    ensures RenderName(p) == Join(Present([Some(FamilyPart(p)), p.initials, p.suffix]), ", ")
  {
    RenderNameIsJoin(p);
    var f := FamilyPart(p);
    var w := if p.initials.Some? then f + ", " + p.initials.value else f;
    assert StartsWith(w, f);
    if p.suffix.Some? {
      var r := w + ", " + p.suffix.value;
      assert r[..|f|] == w[..|f|];
      assert r[|r| - |", " + p.suffix.value|..] == ", " + p.suffix.value;
    }
  }

  /** A rendered name is the comma-join of the family part, the initials and the suffix that are present. */
  lemma RenderNameIsJoin(p: Person)
    ensures RenderName(p) == Join(Present([Some(FamilyPart(p)), p.initials, p.suffix]), ", ")
  {
    RunningJoin(Some(FamilyPart(p)), p.initials, p.suffix);
  }

  /** The rendered names, built by pushing one string per person. */
  function NameList(persons: seq<Person>): (names: seq<string>)
    ensures |names| == |persons|
    ensures forall i :: 0 <= i < |persons| ==> names[i] == RenderName(persons[i])
  {
    if |persons| == 0 then []
    else NameList(persons[..|persons| - 1]) + [RenderName(persons[|persons| - 1])]
  }

  /**
   What the source's loop appends for the name at `index` of a list of `n`
   names: nothing for a dropped middle name of a long list, otherwise the
   name (or the ellipsis in slot 19 of a long list), a comma separator before
   every later name, and "& " after the separator that precedes the last.
   */
  function Emitted(name: string, index: nat, n: nat): string {
    if index > 19 && n > 20 && index != n - 1 then ""
    else
      (if index == 19 && n > 20 then "... " else name)
      + (if index + 2 <= n then ", " else "")
      + (if index + 2 == n then "& " else "")
  }

  /** The loop's output after its first `k` iterations. */
  function EmittedUpTo(names: seq<string>, k: nat): string
    requires k <= |names|
  {
    if k == 0 then "" else EmittedUpTo(names, k - 1) + Emitted(names[k - 1], k - 1, |names|)
  }

  /** How many leading names a list of `n >= 2` names shows before the link to the last one. */
  function KeptHead(n: nat): nat
    requires n >= 2
  {
    if n <= 20 then n - 1 else 19
  }

  /** The text between the kept leading names and the last name. */
  function Link(n: nat): string {
    if n <= 20 then ", & " else if n == 21 then ", ... , & " else ", ... , "
  }

  /**
   The APA author list in closed form: up to twenty names joined by ", " with
   "& " before the last; beyond twenty, the first nineteen, an ellipsis slot,
   and the last name, where the ampersand survives only for exactly 21 names.
   */
  function AmpersandReference(names: seq<string>): string {
    var n := |names|;
    if n == 0 then ""
    else if n == 1 then names[0]
    else Join(names[..KeptHead(n)], ", ") + Link(n) + names[n - 1]
  }

  /** While no separator has yet been followed by "& ", the loop has emitted each name plus ", ". */
  lemma {:induction false} EmittedPrefix(names: seq<string>, k: nat)
    requires k <= 19 && k + 2 <= |names|
    ensures EmittedUpTo(names, k) == Suffixed(names[..k], ", ")
  {
    if k > 0 {
      EmittedPrefix(names, k - 1);
      assert names[..k][..k - 1] == names[..k - 1];
    }
  }

  /** In a long list, the names between slot 19 and the last add nothing. */
  lemma {:induction false} EmittedSkipsMiddle(names: seq<string>, k: nat)
    requires |names| > 20 && 20 <= k <= |names| - 1
    ensures EmittedUpTo(names, k) == EmittedUpTo(names, 20)
  {
    if k > 20 {
      EmittedSkipsMiddle(names, k - 1);
    }
  }

  lemma AmpersandLoopShort(names: seq<string>)
    requires 2 <= |names| <= 20
    ensures EmittedUpTo(names, |names|) == AmpersandReference(names)
  {
    var n := |names|;
    var init := names[..n - 1];
    var a := Suffixed(names[..n - 2], ", ");
    var b := names[n - 2];
    var j := Join(init, ", ");
    assert EmittedUpTo(names, n - 2) == a by {
      EmittedPrefix(names, n - 2);
    }
    assert Emitted(b, n - 2, n) == b + ", " + "& ";
    assert Emitted(names[n - 1], n - 1, n) == names[n - 1];
    assert j + ", " == a + b + ", " by {
      assert init[..n - 2] == names[..n - 2];
      SuffixedIsJoin(init, ", ");
    }
    assert a + (b + ", " + "& ") == j + ", & " by {
      AppendAssoc(a, b + ", ", "& ");
      AppendAssoc(a, b, ", ");
      AppendAssoc(j, ", ", "& ");
    }
    assert AmpersandReference(names) == j + ", & " + names[n - 1];
  }

  /** Slot 19 of a long list, appended after the nineteenth separator, yields the link text. */
  lemma EllipsisSlot(j: string, n: nat)
    requires n > 20
    ensures (j + ", ") + Emitted("", 19, n) == j + Link(n)
  {
    if n == 21 {
      assert Emitted("", 19, n) == "... , & ";
      AppendAssoc(j, ", ", "... , & ");
    } else {
      assert Emitted("", 19, n) == "... , ";
      AppendAssoc(j, ", ", "... , ");
    }
  }

  lemma AmpersandLoopLong(names: seq<string>)
    requires |names| > 20
    ensures EmittedUpTo(names, |names|) == AmpersandReference(names)
  {
    var n := |names|;
    var j := Join(names[..19], ", ");
    assert EmittedUpTo(names, 19) == j + ", " by {
      EmittedPrefix(names, 19);
      SuffixedIsJoin(names[..19], ", ");
    }
    assert Emitted(names[19], 19, n) == Emitted("", 19, n);
    EllipsisSlot(j, n);
    assert EmittedUpTo(names, n - 1) == j + Link(n) by {
      EmittedSkipsMiddle(names, n - 1);
    }
    assert Emitted(names[n - 1], n - 1, n) == names[n - 1];
  }

  lemma AmpersandLoopIsReference(names: seq<string>)
    ensures EmittedUpTo(names, |names|) == AmpersandReference(names)
  {
    if 2 <= |names| <= 20 {
      AmpersandLoopShort(names);
    } else if |names| > 20 {
      AmpersandLoopLong(names);
    }
  }

  /** `ampersand_list`: the loop over the names, equal to the closed form. */
  function AmpersandList(names: seq<string>): (r: string)
    ensures r == AmpersandReference(names)
  {
    AmpersandLoopIsReference(names);
    EmittedUpTo(names, |names|)
  }

  /** The middle names of a long list never reach the output: only the first nineteen and the last matter. */
  lemma AmpersandListDropsMiddle(a: seq<string>, b: seq<string>)
    requires |a| == |b| > 20
    requires a[..19] == b[..19] && a[|a| - 1] == b[|b| - 1]
    ensures AmpersandList(a) == AmpersandList(b)
  {
  }

  /** The link carries one '&' up to 21 names and none beyond. */
  lemma LinkAmpersands(n: nat)
    ensures multiset(Link(n))['&'] == (if n <= 21 then 1 else 0)
  {
    if n <= 20 {
      assert multiset(", & ") == multiset{',', ' ', '&', ' '};
    } else if n == 21 {
      assert multiset(", ... , & ") == multiset{',', ' ', '.', '.', '.', ' ', ',', ' ', '&', ' '};
    } else {
      assert multiset(", ... , ") == multiset{',', ' ', '.', '.', '.', ' ', ',', ' '};
    }
  }

  /**
   When no name contains '&', the output holds exactly one '&' for 2 to 21
   names and none otherwise: none for 0 or 1 name, none once truncation
   drops the name before the last.
   */
  lemma AmpersandCount(names: seq<string>)
    requires forall i :: 0 <= i < |names| ==> '&' !in names[i]
    ensures multiset(AmpersandList(names))['&'] == (if 2 <= |names| <= 21 then 1 else 0)
  {
    var n := |names|;
    if n >= 2 {
      var j := Join(names[..KeptHead(n)], ", ");
      var last := names[n - 1];
      var r := AmpersandList(names);
      assert r == j + Link(n) + last;
      assert multiset(j)['&'] == 0 by {
        JoinPrefixAvoids(names, KeptHead(n), ", ", '&');
      }
      assert multiset(last)['&'] == 0;
      LinkAmpersands(n);
      assert multiset(r) == multiset(j) + multiset(Link(n)) + multiset(last);
    }
  }

  /**
   The last name always closes the list; a list longer than twenty names
   opens with its first nineteen names joined by ", " and then the ellipsis
   slot "... " with its separator.
   */
  lemma AmpersandListEnds(names: seq<string>)
    ensures |names| >= 1 ==> EndsWith(AmpersandList(names), names[|names| - 1])
    ensures |names| > 20 ==> StartsWith(AmpersandList(names), Join(names[..19], ", ") + ", ... , ")
  {
    var n := |names|;
    if n == 1 {
      Framed("", "", names[0]);
      assert AmpersandList(names) == "" + "" + names[0];
    } else if n >= 2 {
      var j := Join(names[..KeptHead(n)], ", ");
      Framed(j, Link(n), names[n - 1]);
      if n > 20 {
        var rest := if n == 21 then "& " else "";
        assert Link(n) == ", ... , " + rest;
        AppendAssoc(j, ", ... , ", rest);
        PrefixOfAppend(j + ", ... , " + rest, names[n - 1]);
        PrefixOfAppend(j + ", ... , ", rest);
      }
    }
  }

  /** The author segment: every author, rendered and joined into the APA list. */
  function GetAuthor(e: Entry): (r: string)
    ensures r == AmpersandReference(NameList(e.authors))
  {
    AmpersandList(NameList(e.authors))
  }

  /** Two names are joined as "A, & B", three as "A, B, & C". */
  lemma AmpersandListTwoAndThree(a: string, b: string, c: string)
    ensures AmpersandList([a, b]) == a + ", & " + b
    ensures AmpersandList([a, b, c]) == a + ", " + b + ", & " + c
  {
    assert [a, b][..1] == [a];
    assert [a, b, c][..2] == [a, b];
    assert Join([a, b], ", ") == a + ", " + b;
  }

  lemma ThreeAuthorNames(ps: seq<Person>)
    requires ps == [
      Person("van de Graf", None, Some("J."), None),
      Person("Günther", None, Some("H.-J."), None),
      Person("Mädje", None, Some("L. E."), None)]
    ensures NameList(ps) == ["van de Graf, J.", "Günther, H.-J.", "Mädje, L. E."]
  {
    var names := NameList(ps);
    assert names[0] == "van de Graf, J." by { assert names[0] == RenderName(ps[0]); }
    assert names[1] == "Günther, H.-J." by { assert names[1] == RenderName(ps[1]); }
    assert names[2] == "Mädje, L. E." by { assert names[2] == RenderName(ps[2]); }
  }

  /** The three-author list of the source's unit test renders exactly as that test expects. */
  lemma GetAuthorThreeAuthors(e: Entry)
    requires e.authors == [
      Person("van de Graf", None, Some("J."), None),
      Person("Günther", None, Some("H.-J."), None),
      Person("Mädje", None, Some("L. E."), None)]
    ensures GetAuthor(e) == "van de Graf, J., Günther, H.-J., & Mädje, L. E."
  {
    var a, b, c := "van de Graf, J.", "Günther, H.-J.", "Mädje, L. E.";
    ThreeAuthorNames(e.authors);
    AmpersandListTwoAndThree(a, b, c);
    assert GetAuthor(e) == a + ", " + b + ", & " + c;
    ThreeAuthorText();
  }

  lemma ThreeAuthorText()
    ensures "van de Graf, J." + ", " + "Günther, H.-J." + ", & " + "Mädje, L. E."
      == "van de Graf, J., Günther, H.-J., & Mädje, L. E."
  {
    assert "van de Graf, J." + ", " + "Günther, H.-J." == "van de Graf, J., Günther, H.-J.";
  }
}
