/** `readDesktopFile`: the loose reading of a `.desktop` file that the
    evaluation screen uses to name and decorate an application.

    It follows the code rather than the Desktop Entry Specification: there
    is no `[Desktop Entry]` group, no locale fallback chain, `Icon` is a bare
    prefix, a value is only the text between the first and second `=`
    (trimmed), and for every key the last matching line wins. */
module DesktopEntry {
  import opened Optional
  import opened QtString

  /** One discovered application. */
  datatype AppInfo = AppInfo(name: string, iconName: string, noDisplay: bool)

  /** Which branch of the reader a line takes. The tests are made in this
      order and the first that matches decides. */
  datatype LineKind = IconLine | LocalisedNameLine | NameLine | NoDisplayLine | OtherLine

  /** `Name[<locale>]`, the prefix of a name localised for `locale`. */
  function LocalisedNameKey(locale: string): string {
    "Name[" + locale + "]"
  }

  function KindOf(line: string, locale: string): (k: LineKind)
    ensures k == NameLine || k == NoDisplayLine ==> '=' in line
  {
    if StartsWith(line, "Icon") then IconLine
    else if StartsWith(line, LocalisedNameKey(locale)) then LocalisedNameLine
    else if StartsWith(line, "Name=") then
      assert line[4] == '=';
      NameLine
    else if StartsWith(line, "NoDisplay=") then
      assert line[9] == '=';
      NoDisplayLine
    else OtherLine
  }

  /** A matched line must hold an `=`: the reader takes `split("=")[1]` of
      it, which is out of range otherwise. */
  predicate Splittable(line: string, locale: string) {
    KindOf(line, locale) != OtherLine ==> '=' in line
  }

  predicate WellFormed(lines: seq<string>, locale: string) {
    forall i :: 0 <= i < |lines| ==> Splittable(lines[i], locale)
  }

  /** `line.split("=")[1].trimmed()`. */
  function Value(line: string): string
    requires '=' in line
  {
    Trimmed(Split(line, '=')[1])
  }

  /** The value of a line is the trimmed text between its first and its
      second `=` (or the end of the line): `Icon=a=b` yields `a`. */
  lemma ValueBetweenFirstAndSecondEquals(key: string, raw: string, rest: string)
    requires '=' !in key && '=' !in raw
    requires rest == [] || rest[0] == '='
    ensures '=' in key + "=" + raw + rest
    ensures Value(key + "=" + raw + rest) == Trimmed(raw)
  {
    SecondPart(key, '=', raw, rest);
    assert key + "=" + raw + rest == key + ['='] + raw + rest;
  }

  /** The locals of the reading loop: the icon and visibility already in
      `info`, and the two candidate names. */
  datatype Scan = Scan(iconName: string, localisedName: string, fallbackName: string, noDisplay: bool)

  const Start := Scan("", "", "", false)

  /** One pass of the loop body. */
  function Step(s: Scan, line: string, locale: string): Scan
    requires Splittable(line, locale)
  {
    match KindOf(line, locale)
    case IconLine => s.(iconName := Value(line))
    case LocalisedNameLine => s.(localisedName := Value(line))
    case NameLine => s.(fallbackName := Value(line))
    case NoDisplayLine => s.(noDisplay := Value(line) == "true")
    case OtherLine => s
  }

  /** The loop run over `lines` from state `s`, first line first. */
  function ScanLines(s: Scan, lines: seq<string>, locale: string): Scan
    requires WellFormed(lines, locale)
  {
    if |lines| == 0 then s
    else Step(ScanLines(s, lines[..|lines| - 1], locale), lines[|lines| - 1], locale)
  }

  /** `readDesktopFile(filePath)`: `file` is the lines of the file (what
      `readLine` returns, terminators included) or `None` when it cannot be
      opened; `locale` is `kCurrentLocale`. */
  function ReadDesktopFile(locale: string, filePath: string, file: Option<seq<string>>): (info: AppInfo)
    requires file.Some? ==> WellFormed(file.value, locale)
    ensures file.None? ==> info.name == filePath && info.iconName == "" && !info.noDisplay
  {
    match file
    case None => AppInfo(filePath, "", false)
    case Some(lines) =>
      var s := ScanLines(Start, lines, locale);
      AppInfo(if |s.localisedName| > 0 then s.localisedName else s.fallbackName, s.iconName, s.noDisplay)
  }

  /** Line `i` is the last line of kind `kind`. */
  predicate IsLastOfKind(lines: seq<string>, kind: LineKind, locale: string, i: int) {
    && 0 <= i < |lines|
    && KindOf(lines[i], locale) == kind
    && forall j :: i < j < |lines| ==> KindOf(lines[j], locale) != kind
  }

  /** Reference definition: the value of the last line of kind `kind`, if
      any line has that kind. */
  function LastValue(lines: seq<string>, kind: LineKind, locale: string): Option<string>
    requires WellFormed(lines, locale)
    requires kind != OtherLine
  {
    if |lines| == 0 then None
    else
      var last := lines[|lines| - 1];
      if KindOf(last, locale) == kind then Some(Value(last))
      else
        var init := lines[..|lines| - 1];
        assert WellFormed(init, locale) by {
          assert forall i :: 0 <= i < |init| ==> init[i] == lines[i];
        }
        LastValue(init, kind, locale)
  }

  lemma WellFormedPrefix(lines: seq<string>, n: nat, locale: string)
    requires n <= |lines| && WellFormed(lines, locale)
    ensures WellFormed(lines[..n], locale)
  {
    assert forall i :: 0 <= i < n ==> lines[..n][i] == lines[i];
  }

  /** `LastValue` has no value exactly when no line has the kind. */
  lemma {:induction false} LastValueNoneIffNoMatch(lines: seq<string>, kind: LineKind, locale: string)
    requires WellFormed(lines, locale)
    requires kind != OtherLine
    ensures LastValue(lines, kind, locale).None? <==> forall i :: 0 <= i < |lines| ==> KindOf(lines[i], locale) != kind
    decreases |lines|
  {
    if |lines| > 0 {
      var n := |lines| - 1;
      if KindOf(lines[n], locale) != kind {
        var init := lines[..n];
        WellFormedPrefix(lines, n, locale);
        LastValueNoneIffNoMatch(init, kind, locale);
        assert forall i :: 0 <= i < n ==> init[i] == lines[i];
      }
    }
  }

  /** Where line `i` is the last of its kind, `LastValue` is that line's value. */
  lemma {:induction false} LastValueAtLastMatch(lines: seq<string>, kind: LineKind, locale: string, i: int)
    requires WellFormed(lines, locale)
    requires kind != OtherLine
    requires IsLastOfKind(lines, kind, locale, i)
    ensures LastValue(lines, kind, locale) == Some(Value(lines[i]))
    decreases |lines|
  {
    var n := |lines| - 1;
    if i < n {
      assert KindOf(lines[n], locale) != kind;
      var init := lines[..n];
      WellFormedPrefix(lines, n, locale);
      assert init[i] == lines[i];
      assert IsLastOfKind(init, kind, locale, i) by {
        forall j | i < j < |init|
          ensures KindOf(init[j], locale) != kind
        {
          assert init[j] == lines[j];
        }
      }
      LastValueAtLastMatch(init, kind, locale, i);
    }
  }

  /** Each slot of the scan holds the value of the last line of its kind,
      or its starting value when there is no such line. */
  lemma {:induction false} ScanTracksLastValues(s: Scan, lines: seq<string>, locale: string)
    requires WellFormed(lines, locale)
    ensures ScanLines(s, lines, locale).iconName == LastValue(lines, IconLine, locale).GetOr(s.iconName)
    ensures ScanLines(s, lines, locale).localisedName == LastValue(lines, LocalisedNameLine, locale).GetOr(s.localisedName)
    ensures ScanLines(s, lines, locale).fallbackName == LastValue(lines, NameLine, locale).GetOr(s.fallbackName)
    ensures ScanLines(s, lines, locale).noDisplay
            == (match LastValue(lines, NoDisplayLine, locale)
                case Some(v) => v == "true"
                case None => s.noDisplay)
  {
    if |lines| > 0 {
      var init := lines[..|lines| - 1];
      assert WellFormed(init, locale) by {
        assert forall i :: 0 <= i < |init| ==> init[i] == lines[i];
      }
      ScanTracksLastValues(s, init, locale);
    }
  }

  /** The icon is the value of the last line starting with `Icon` (so
      `IconFoo=` counts too), or empty when there is none. */
  lemma {:induction false} IconIsLastIconValue(locale: string, filePath: string, lines: seq<string>)
    requires WellFormed(lines, locale)
    ensures ReadDesktopFile(locale, filePath, Some(lines)).iconName
            == LastValue(lines, IconLine, locale).GetOr("")
  {
    ScanTracksLastValues(Start, lines, locale);
  }

  /** The name is the last `Name[<locale>]` value when that is non-empty;
      otherwise the last `Name=` value, or empty when there is neither. An
      empty last localised value therefore falls back to `Name=`. */
  lemma {:induction false} NameIsLocalisedElseFallback(locale: string, filePath: string, lines: seq<string>)
    requires WellFormed(lines, locale)
    ensures var localised := LastValue(lines, LocalisedNameLine, locale).GetOr("");
            ReadDesktopFile(locale, filePath, Some(lines)).name
            == if localised != "" then localised else LastValue(lines, NameLine, locale).GetOr("")
  {
    ScanTracksLastValues(Start, lines, locale);
  }

  /** `noDisplay` holds exactly when the last `NoDisplay=` line's trimmed
      value is `true`; it is false without such a line. */
  lemma {:induction false} NoDisplayIffLastIsTrue(locale: string, filePath: string, lines: seq<string>)
    requires WellFormed(lines, locale)
    ensures ReadDesktopFile(locale, filePath, Some(lines)).noDisplay
            <==> LastValue(lines, NoDisplayLine, locale) == Some("true")
  {
    ScanTracksLastValues(Start, lines, locale);
  }

  /** Running the loop over `a + b` is running it over `a`, then over `b`. */
  lemma {:induction false} ScanAppend(s: Scan, a: seq<string>, b: seq<string>, locale: string)
    requires WellFormed(a, locale) && WellFormed(b, locale)
    ensures WellFormed(a + b, locale)
    ensures ScanLines(s, a + b, locale) == ScanLines(ScanLines(s, a, locale), b, locale)
    decreases |b|
  {
    assert forall i :: 0 <= i < |a| ==> (a + b)[i] == a[i];
    assert forall i :: |a| <= i < |a| + |b| ==> (a + b)[i] == b[i - |a|];
    if |b| == 0 {
      assert a + b == a;
    } else {
      var initB := b[..|b| - 1];
      assert WellFormed(initB, locale) by {
        assert forall i :: 0 <= i < |initB| ==> initB[i] == b[i];
      }
      ScanAppend(s, a, initB, locale);
      assert (a + b)[..|a + b| - 1] == a + initB;
    }
  }

  /** Lines that match none of the four prefixes leave the loop's state alone. */
  lemma {:induction false} ScanSkipsOtherLines(s: Scan, others: seq<string>, locale: string)
    requires forall i :: 0 <= i < |others| ==> KindOf(others[i], locale) == OtherLine
    ensures WellFormed(others, locale)
    ensures ScanLines(s, others, locale) == s
    decreases |others|
  {
    if |others| > 0 {
      var init := others[..|others| - 1];
      assert forall i :: 0 <= i < |init| ==> init[i] == others[i];
      ScanSkipsOtherLines(s, init, locale);
    }
  }

  /** Inserting lines that match none of the prefixes anywhere in a file
      leaves what is read from it unchanged. */
  lemma OtherLinesDoNotMatter(locale: string, filePath: string, before: seq<string>, others: seq<string>, after: seq<string>)
    requires WellFormed(before, locale) && WellFormed(after, locale)
    requires forall i :: 0 <= i < |others| ==> KindOf(others[i], locale) == OtherLine
    ensures WellFormed(before + others + after, locale) && WellFormed(before + after, locale)
    ensures ReadDesktopFile(locale, filePath, Some(before + others + after))
            == ReadDesktopFile(locale, filePath, Some(before + after))
  {
    ScanSkipsOtherLines(ScanLines(Start, before, locale), others, locale);
    ScanAppend(Start, before, others, locale);
    ScanAppend(Start, before + others, after, locale);
    ScanAppend(Start, before, after, locale);
  }

  /** One more line of the file is one more step of the loop. */
  lemma ScanOneMore(lines: seq<string>, k: nat, locale: string)
    requires k < |lines|
    requires WellFormed(lines, locale)
    ensures WellFormed(lines[..k], locale) && WellFormed(lines[..k + 1], locale)
    ensures ScanLines(Start, lines[..k + 1], locale)
            == Step(ScanLines(Start, lines[..k], locale), lines[k], locale)
  {
    assert lines[..k + 1][..k] == lines[..k];
  }

  /** The reading loop as `readDesktopFile` writes it: one `while` over the lines,
      the four prefix tests in order, the name chosen after the loop. */
  method ParseDesktopFile(locale: string, filePath: string, file: Option<seq<string>>) returns (info: AppInfo)
    requires file.Some? ==> WellFormed(file.value, locale)
    ensures info == ReadDesktopFile(locale, filePath, file)
  {
    info := AppInfo("", "", false);
    var name := "";
    var fallbackName := "";
    match file {
      case None =>
        info := info.(name := filePath);
      case Some(lines) =>
        var k := 0;
        while k < |lines|
          invariant 0 <= k <= |lines|
          invariant WellFormed(lines[..k], locale)
          invariant Scan(info.iconName, name, fallbackName, info.noDisplay) == ScanLines(Start, lines[..k], locale)
        {
          var line := lines[k];
          ghost var before := Scan(info.iconName, name, fallbackName, info.noDisplay);
          assert Splittable(line, locale);
          if StartsWith(line, "Icon") {
            assert KindOf(line, locale) == IconLine;
            info := info.(iconName := Trimmed(Split(line, '=')[1]));
          } else if StartsWith(line, "Name[" + locale + "]") {
            assert KindOf(line, locale) == LocalisedNameLine;
            name := Trimmed(Split(line, '=')[1]);
          } else if StartsWith(line, "Name=") {
            assert KindOf(line, locale) == NameLine;
            fallbackName := Trimmed(Split(line, '=')[1]);
          } else if StartsWith(line, "NoDisplay=") {
            assert KindOf(line, locale) == NoDisplayLine;
            info := info.(noDisplay := Trimmed(Split(line, '=')[1]) == "true");
          } else {
            assert KindOf(line, locale) == OtherLine;
          }
          assert Scan(info.iconName, name, fallbackName, info.noDisplay) == Step(before, line, locale);
          ScanOneMore(lines, k, locale);
          k := k + 1;
        }
        assert lines[..k] == lines;
        info := info.(name := if |name| > 0 then name else fallbackName);
    }
  }
}
