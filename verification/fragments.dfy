/**
 The two small formatting helpers shared by the title and source segments:
 a numeric range with a singular or plural label, and the parenthetical
 that states an edition and a volume.
 */
module Fragments {
  import opened Options
  import opened Text
  import opened Entries

  /** The bounds of a range without a label: one number, or two joined by an en dash. */
  function Bounds(range: NumRange): string {
    if range.start == range.end then NatToString(range.start)
    else NatToString(range.start) + [EnDash] + NatToString(range.end)
  }

  /**
   `format_range`: a single value under the singular label, or a span joined
   by an en dash under the plural label. The space after the label depends on
   the singular label alone, so two empty labels give bare numbers and an
   empty singular label drops the space after the plural one too.
   */
  function FormatRange(prefixS: string, prefixM: string, range: NumRange): (r: string)
    ensures r == (if range.start == range.end then prefixS else prefixM)
      + (if prefixS == "" then "" else " ") + Bounds(range)
    ensures EndsWith(r, NatToString(range.end))
    ensures EnDash !in prefixS && EnDash !in prefixM ==> (EnDash in r <==> range.start != range.end)
  {
    var space := if prefixS == "" then "" else " ";
    if range.start == range.end then
      prefixS + space + NatToString(range.start)
    else
      prefixM + space + NatToString(range.start) + [EnDash] + NatToString(range.end)
  }

  /** Reads an unlabelled range back: digits, optionally an en dash and more digits. */
  function ParseRange(s: string): Option<NumRange> {
    var k := IndexOf(s, EnDash);
    if k == |s| then
      if |s| > 0 && AllDigits(s) then Some(NumRange(DecimalValue(s), DecimalValue(s))) else None
    else
      var lo, hi := s[..k], s[k + 1..];
      if |lo| > 0 && |hi| > 0 && AllDigits(lo) && AllDigits(hi) then
        Some(NumRange(DecimalValue(lo), DecimalValue(hi)))
      else
        None
  }

  lemma ParseSingle(n: nat)
    ensures ParseRange(NatToString(n)) == Some(NumRange(n, n))
  {
    var a := NatToString(n);
    DecimalRoundTrip(n);
    assert forall i :: 0 <= i < |a| ==> a[i] != EnDash;
  }

  lemma ParseSpan(m: nat, n: nat)
    ensures ParseRange(NatToString(m) + [EnDash] + NatToString(n)) == Some(NumRange(m, n))
  {
    var a, b := NatToString(m), NatToString(n);
    var s := a + [EnDash] + b;
    DecimalRoundTrip(m);
    DecimalRoundTrip(n);
    assert forall i :: 0 <= i < |a| ==> s[i] == a[i] && s[i] != EnDash;
    assert s[|a|] == EnDash;
    assert IndexOf(s, EnDash) == |a|;
    assert s[..|a|] == a;
    assert s[|a| + 1..] == b;
  }

  /** An unlabelled range, as page ranges and periodical volumes are written, reads back as the same range. */
  lemma FormatRangeRoundTrip(range: NumRange)
    ensures ParseRange(FormatRange("", "", range)) == Some(range)
  {
    assert FormatRange("", "", range) == Bounds(range);
    if range.start == range.end {
      ParseSingle(range.start);
    } else {
      ParseSpan(range.start, range.end);
    }
  }

  /** The volume range labelled "Vol." or "Vols.". */
  function VolumeText(range: NumRange): string {
    FormatRange("Vol.", "Vols.", range)
  }

  /** An edition: a number goes through the ordinal lookup, text is used as it is. */
  function EditionText(edition: NumOrStr, lookups: Lookups): string {
    match edition
    case Number(n) => lookups.ordinal(n)
    case Str(s) => s
  }

  /** `ed_vol_str`: " ({e} ed.).", " ({v}).", " ({e} ed., {v})." or nothing. */
  function EdVolStr(e: Entry, lookups: Lookups): (r: string)
    ensures r == "" <==> e.edition.None? && e.volume.None?
  {
    var vstr := if e.volume.Some? then Some(VolumeText(e.volume.value)) else None;
    var estr := if e.edition.Some? then Some(EditionText(e.edition.value, lookups)) else None;
    match (estr, vstr)
    case (None, None) => ""
    case (Some(ed), None) => " (" + ed + " ed.)."
    case (None, Some(v)) => " (" + v + ")."
    case (Some(ed), Some(v)) => " (" + ed + " ed., " + v + ")."
  }

  /** The parts of the parenthetical that are present: the edition with " ed.", then the volume. */
  function EdVolParts(e: Entry, lookups: Lookups): seq<string> {
    Present([
      if e.edition.Some? then Some(EditionText(e.edition.value, lookups) + " ed.") else None,
      if e.volume.Some? then Some(VolumeText(e.volume.value)) else None])
  }

  /**
   The four outcomes of `ed_vol_str` are one rule: nothing when no part is
   present, and otherwise the present parts joined by ", " inside " (" and ").".
   */
  lemma EdVolStrIsJoin(e: Entry, lookups: Lookups)
    ensures var ps := EdVolParts(e, lookups);
      EdVolStr(e, lookups) == (if |ps| == 0 then "" else " (" + Join(ps, ", ") + ").")
  {
    var a := if e.edition.Some? then Some(EditionText(e.edition.value, lookups) + " ed.") else None;
    var b := if e.volume.Some? then Some(VolumeText(e.volume.value)) else None;
    PresentThree(a, b, None);
    var ps := EdVolParts(e, lookups);
    if a.Some? && b.Some? {
      assert ps == [a.value, b.value];
      assert [a.value, b.value][..1] == [a.value];
      assert Join(ps, ", ") == a.value + ", " + b.value;
    } else if a.Some? {
      assert ps == [a.value];
    } else if b.Some? {
      assert ps == [b.value];
    }
  }

  /** With an edition, the parenthetical opens with " (", the edition and " ed.", and closes with ").". */
  lemma EdVolStrEditionFirst(e: Entry, lookups: Lookups)
    requires e.edition.Some?
    ensures var r := EdVolStr(e, lookups);
      && StartsWith(r, " (" + EditionText(e.edition.value, lookups) + " ed.")
      && EndsWith(r, ").")
  {
    var ed := EditionText(e.edition.value, lookups);
    if e.volume.Some? {
      var v := VolumeText(e.volume.value);
      assert EdVolStr(e, lookups) == " (" + ed + " ed." + ", " + (v + ").");
      Framed(" (" + ed + " ed.", ", ", v + ").");
      Framed(" (", ed + " ed., " + v, ").");
    } else {
      Framed(" (" + ed + " ed.", "", ").");
    }
  }

  /** With a volume, the parenthetical opens with " (" and closes with the volume and ").". */
  lemma EdVolStrVolumeLast(e: Entry, lookups: Lookups)
    requires e.volume.Some?
    ensures var r := EdVolStr(e, lookups);
      && StartsWith(r, " (")
      && EndsWith(r, VolumeText(e.volume.value) + ").")
  {
    var v := VolumeText(e.volume.value);
    if e.edition.Some? {
      var ed := EditionText(e.edition.value, lookups);
      assert EdVolStr(e, lookups) == " (" + (ed + " ed., ") + (v + ").");
      Framed(" (", ed + " ed., ", v + ").");
    } else {
      Framed(" (", "", v + ").");
    }
  }

  /**
   A non-empty parenthetical opens with " (", closes with ").", names the
   edition first (through the ordinal lookup for a number, verbatim for text)
   and the volume last.
   */
  lemma EdVolStrShape(e: Entry, lookups: Lookups)
    ensures var r := EdVolStr(e, lookups);
      && (r != "" ==> StartsWith(r, " (") && EndsWith(r, ")."))
      && (e.edition.Some? ==> StartsWith(r, " (" + EditionText(e.edition.value, lookups) + " ed."))
      && (e.volume.Some? ==> EndsWith(r, VolumeText(e.volume.value) + ")."))
  {
    if e.edition.Some? {
      EdVolStrEditionFirst(e, lookups);
      assert StartsWith(EdVolStr(e, lookups), " (") by {
        var r := EdVolStr(e, lookups);
        assert r[..2] == (" (" + EditionText(e.edition.value, lookups) + " ed.")[..2];
      }
    }
    if e.volume.Some? {
      EdVolStrVolumeLast(e, lookups);
      var r := EdVolStr(e, lookups);
      var t := VolumeText(e.volume.value) + ").";
      assert r[|r| - 2..] == t[|t| - 2..];
    }
  }

  /** Edition 2 of volume 4 gives " (2nd ed., Vol. 4).". */
  lemma EdVolStrSecondEditionFourthVolume(e: Entry, lookups: Lookups)
    requires e.edition == Some(Number(2)) && e.volume == Some(NumRange(4, 4))
    requires lookups.ordinal(2) == "2nd"
    ensures EdVolStr(e, lookups) == " (2nd ed., Vol. 4)."
  {
    assert NatToString(4) == "4";
    assert VolumeText(NumRange(4, 4)) == "Vol. 4";
  }

  /** A range with equal bounds gives "Vol. 3"; bounds 3 and 5 give "Vols. 3–5". */
  lemma VolumeTextExamples()
    ensures VolumeText(NumRange(3, 3)) == "Vol. 3"
    ensures VolumeText(NumRange(3, 5)) == "Vols. 3–5"
  {
    assert NatToString(3) == "3";
    assert NatToString(5) == "5";
  }
}
