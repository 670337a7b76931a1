/** The note card's text (src/components/NoteItem.tsx): the relative date, the
    body preview and the title fallback. The clock is the parameter `now` and
    the locale's date format is the parameter `localeDate`. */
module NoteItem {
  import opened Seqs
  import opened JsString
  import opened Decimal

  datatype TimeUnit = Minute | Hour | Day

  /** Which branch `formatDate` takes. */
  datatype Age = JustNow | Ago(count: nat, unit: TimeUnit) | OnDate

  /** The branch for a note updated at `timestamp`, seen at `now` (both in ms).
      `Math.floor` of a quotient by a positive divisor is Dafny's `/`. The count
      shown is the number of whole units elapsed. */
  function AgeOf(timestamp: int, now: int): (r: Age)
    ensures r == JustNow <==> now - timestamp < 60000
    ensures r.Ago? && r.unit == Minute <==> 60000 <= now - timestamp < 3600000
    ensures r.Ago? && r.unit == Hour <==> 3600000 <= now - timestamp < 86400000
    ensures r.Ago? && r.unit == Day <==> 86400000 <= now - timestamp < 7 * 86400000
    ensures r == OnDate <==> now - timestamp >= 7 * 86400000
    ensures r.Ago? && r.unit == Minute ==>
              1 <= r.count < 60 && r.count * 60000 <= now - timestamp < (r.count + 1) * 60000
    ensures r.Ago? && r.unit == Hour ==>
              1 <= r.count < 24 && r.count * 3600000 <= now - timestamp < (r.count + 1) * 3600000
    ensures r.Ago? && r.unit == Day ==>
              1 <= r.count < 7 && r.count * 86400000 <= now - timestamp < (r.count + 1) * 86400000
  {
    var diff := now - timestamp;
    var minutes := diff / 60000;
    var hours := diff / 3600000;
    var days := diff / 86400000;
    if minutes < 1 then JustNow
    else if minutes < 60 then Ago(minutes, Minute)
    else if hours < 24 then Ago(hours, Hour)
    else if days < 7 then Ago(days, Day)
    else OnDate
  }

  function UnitName(unit: TimeUnit): string {
    match unit
    case Minute => "minute"
    case Hour => "hour"
    case Day => "day"
  }

  /** `formatDate`. */
  function FormatDate(timestamp: int, now: int, localeDate: int -> string): (r: string)
    ensures now - timestamp < 60000 ==> r == "Just now"
    ensures now - timestamp >= 7 * 86400000 ==> r == localeDate(timestamp)
  {
    match AgeOf(timestamp, now)
    case JustNow => "Just now"
    case Ago(n, unit) => NatToDecimal(n) + " " + UnitName(unit) + (if n == 1 then "" else "s") + " ago"
    case OnDate => localeDate(timestamp)
  }

  /** Below a week the text is "<count> <unit> ago": the count's digits,
      which read back as the count, a space, the unit's name with the plural
      ending exactly when the count is not 1, and " ago"; such a text is never
      "Just now". */
  lemma FormatDateAgo(timestamp: int, now: int, localeDate: int -> string)
    requires AgeOf(timestamp, now).Ago?
    ensures var r := FormatDate(timestamp, now, localeDate);
            var a := AgeOf(timestamp, now);
            var digits := NatToDecimal(a.count);
            && r == digits + " " + UnitName(a.unit) + (if a.count != 1 then "s" else "") + " ago"
            && ParseNat(r[..|digits|]) == a.count
            && r != "Just now"
  {
    var a := AgeOf(timestamp, now);
    var r := FormatDate(timestamp, now, localeDate);
    var digits := NatToDecimal(a.count);
    ParseNatToDecimal(a.count);
    assert r[..|digits|] == digits;
    assert r[|r| - 4..] == " ago";
    assert "Just now"[4..] != " ago";
  }

  // ------------------------------------------------------------------ preview

  const NoContent := "No content"

  function NonBlank(): string -> bool {
    (line: string) => !IsBlank(line)
  }

  /** The length of a join does not depend on the separator character. */
  lemma {:induction false} JoinLengthAnySeparator(parts: seq<string>, a: char, b: char)
    ensures |Join(parts, a)| == |Join(parts, b)|
  {
    if |parts| > 1 {
      JoinLengthAnySeparator(parts[1..], a, b);
    }
  }

  /** Dropping parts never lengthens a join. */
  lemma {:induction false} JoinFilterShorter(parts: seq<string>, p: string -> bool, sep: char)
    ensures |Join(Filter(parts, p), sep)| <= |Join(parts, sep)|
  {
    if parts != [] {
      var kept := Filter(parts, p);
      var rest := Filter(parts[1..], p);
      JoinFilterShorter(parts[1..], p, sep);
      assert kept == (if p(parts[0]) then [parts[0]] else []) + rest;
      if |parts| > 1 {
        assert Join(parts, sep) == parts[0] + [sep] + Join(parts[1..], sep);
      }
      if !p(parts[0]) {
        assert kept == rest;
      } else if rest == [] {
        assert kept == [parts[0]];
      } else {
        assert kept[1..] == rest;
        assert Join(kept, sep) == parts[0] + [sep] + Join(rest, sep);
      }
    }
  }

  /** `body.split('\n').filter(line => line.trim())`: the non-blank lines, in
      order; joined with single characters they are no longer than the body. */
  function ContentLines(body: string): (r: seq<string>)
    ensures forall k :: 0 <= k < |r| ==> !IsBlank(r[k]) && '\n' !in r[k]
    ensures |Join(r, ' ')| <= |body|
  {
    var r := Filter(Split(body, '\n'), NonBlank());
    JoinFilterShorter(Split(body, '\n'), NonBlank(), '\n');
    JoinSplit(body, '\n');
    JoinLengthAnySeparator(r, ' ', '\n');
    r
  }

  /** `lines.slice(0, 2).join(' ')`: the first line, and the second after one
      space if there is one; never longer than joining all the lines. */
  function FirstTwoJoined(lines: seq<string>): (r: string)
    ensures |lines| == 0 ==> r == ""
    ensures |lines| == 1 ==> r == lines[0]
    ensures |lines| >= 2 ==> r == lines[0] + " " + lines[1]
    ensures |r| <= |Join(lines, ' ')|
  {
    var r := Join(lines[..if |lines| < 2 then |lines| else 2], ' ');
    if |lines| >= 2 then
      var two := lines[..2];
      assert two[1..] == [lines[1]];
      assert Join(two[1..], ' ') == lines[1];
      assert r == two[0] + [' '] + Join(two[1..], ' ');
      assert |Join(lines[1..], ' ')| >= |lines[1]|;
      r
    else
      r
  }

  /** Every line of `body` consists of whitespace only. */
  ghost predicate AllLinesBlank(body: string) {
    forall k :: 0 <= k < |Split(body, '\n')| ==> AllWhitespace(Split(body, '\n')[k])
  }

  lemma WhitespaceCons(s: string)
    requires s != []
    ensures AllWhitespace(s) <==> IsWhitespace(s[0]) && AllWhitespace(s[1..])
  {
    assert forall k :: 0 < k < |s| ==> s[k] == s[1..][k - 1];
  }

  /** A line break closes the first line: the lines of the body are an empty
      line followed by the lines of the rest. */
  lemma LinesAfterBreak(body: string)
    requires body != [] && body[0] == '\n'
    ensures AllLinesBlank(body) <==> AllLinesBlank(body[1..])
  {
    var lines := Split(body, '\n');
    var rest := Split(body[1..], '\n');
    assert lines == [""] + rest;
    if AllLinesBlank(body[1..]) {
      forall k | 0 <= k < |lines|
        ensures AllWhitespace(lines[k])
      {
        if k > 0 {
          assert lines[k] == rest[k - 1];
        }
      }
    }
    if AllLinesBlank(body) {
      forall k | 0 <= k < |rest|
        ensures AllWhitespace(rest[k])
      {
        assert lines[k + 1] == rest[k];
      }
    }
  }

  /** Any other character joins the first line of the rest. */
  lemma LinesAfterChar(body: string)
    requires body != [] && body[0] != '\n'
    ensures AllLinesBlank(body) <==> IsWhitespace(body[0]) && AllLinesBlank(body[1..])
  {
    var lines := Split(body, '\n');
    var rest := Split(body[1..], '\n');
    var first := [body[0]] + rest[0];
    assert lines == [first] + rest[1..];
    WhitespaceCons(first);
    assert first[1..] == rest[0];
    if IsWhitespace(body[0]) && AllLinesBlank(body[1..]) {
      forall k | 0 <= k < |lines|
        ensures AllWhitespace(lines[k])
      {
        if k > 0 {
          assert lines[k] == rest[k];
        }
      }
    }
    if AllLinesBlank(body) {
      assert AllWhitespace(lines[0]);
      forall k | 0 <= k < |rest|
        ensures AllWhitespace(rest[k])
      {
        if k > 0 {
          assert lines[k] == rest[k];
        }
      }
    }
  }

  /** A body has only blank lines exactly when it is blank as a whole: the line
      break is itself whitespace. */
  lemma {:induction false} AllLinesBlankIffBlank(body: string)
    ensures AllLinesBlank(body) <==> AllWhitespace(body)
  {
    if body == [] {
      assert Split(body, '\n') == [""];
    } else {
      AllLinesBlankIffBlank(body[1..]);
      WhitespaceCons(body);
      if body[0] == '\n' {
        LinesAfterBreak(body);
      } else {
        LinesAfterChar(body);
      }
    }
  }

  /** `getPreview` finds no line to show exactly when the body is blank. */
  lemma NoContentLinesIffBlank(body: string)
    ensures ContentLines(body) == [] <==> IsBlank(body)
  {
    AllLinesBlankIffBlank(body);
    var parts := Split(body, '\n');
    var lines := ContentLines(body);
    if lines == [] {
      assert forall k :: 0 <= k < |parts| ==> IsBlank(parts[k]);
      assert forall k :: 0 <= k < |parts| ==> AllWhitespace(parts[k]);
    } else {
      assert lines[0] in parts && NonBlank()(lines[0]);
    }
  }

  /** `getPreview`: "No content" for a blank body; otherwise the first two
      non-blank lines joined by a space, cut to 100 characters, with "..."
      exactly when the whole body is longer than 100. A body of at most 100
      characters is never cut. */
  function GetPreview(body: string): (r: string)
    ensures |r| <= 103
    ensures IsBlank(body) ==> r == NoContent
    ensures !IsBlank(body) && |body| > 100 ==>
              r == Prefix(FirstTwoJoined(ContentLines(body)), 100) + "..."
    ensures !IsBlank(body) && |body| <= 100 ==> r == FirstTwoJoined(ContentLines(body))
  {
    var lines := ContentLines(body);
    NoContentLinesIffBlank(body);
    if |lines| == 0 then
      NoContent
    else
      Prefix(FirstTwoJoined(lines), 100) + (if |body| > 100 then "..." else "")
  }

  /** A short body on one non-blank line is shown as it is. */
  lemma OneShortLineIsItsOwnPreview(body: string)
    requires '\n' !in body && !IsBlank(body) && |body| <= 100
    ensures GetPreview(body) == body
  {
    SplitWithoutSeparator(body, '\n');
    assert NonBlank()(body);
    assert ContentLines(body) == [body];
  }

  /** The placeholder is not a sure sign of an empty body: a body that reads
      "No content" is previewed as "No content" too. */
  lemma PlaceholderIsAlsoAPreview()
    ensures !IsBlank(NoContent) && GetPreview(NoContent) == NoContent
  {
    assert NoContent[0] == 'N';
    OneShortLineIsItsOwnPreview(NoContent);
  }

  /** `note.title || 'Untitled Note'`. */
  function DisplayTitle(title: string): (r: string)
    ensures r != ""
    ensures title == "" ==> r == "Untitled Note"
    ensures title != "" ==> r == title
  {
    if title == "" then "Untitled Note" else title
  }
}
