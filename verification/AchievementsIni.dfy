/**
 Patching an emulator's ini to the proxy's host, patching it again, and reverting
 (linux/raofflineproxy/achievements_ini.py).
 */
module AchievementsIni {
  import opened Bytes
  import opened Text
  import opened IniText
  import opened IniSection

  datatype HostSetting = HostSetting(section: string, hostKey: string, hardcoreKey: string, hardcoreOff: string)

  /** The values captured before a patch; both are missing when there was no file. */
  datatype Previous = Previous(host: Option<string>, hardcore: Option<string>)

  datatype PatchResult = PatchResult(fileExists: bool, changed: bool, alreadyPatched: bool, previous: Previous)

  predicate ValidSetting(setting: HostSetting, proxy: string) {
    && ValidSection(setting.section)
    && ValidKey(setting.hostKey) && ValidKey(setting.hardcoreKey) && setting.hostKey != setting.hardcoreKey
    && ValidValue(setting.hardcoreOff) && ValidValue(proxy)
  }

  function Captured(setting: HostSetting, text: string): Previous {
    Previous(Extract(text, setting.hostKey, setting.section), Extract(text, setting.hardcoreKey, setting.section))
  }

  function PatchUpdates(setting: HostSetting, proxy: string): Updates {
    [(setting.hostKey, Some(proxy)), (setting.hardcoreKey, Some(setting.hardcoreOff))]
  }

  function PatchedText(setting: HostSetting, proxy: string, text: string): string {
    UpdatedText(text, PatchUpdates(setting, proxy), setting.section)
  }

  /** The proxy's own host is never restored. */
  function RevertUpdates(setting: HostSetting, proxy: string, previous: Previous): Updates {
    [(setting.hostKey, if previous.host == Some(proxy) then None else previous.host),
     (setting.hardcoreKey, previous.hardcore)]
  }

  function RevertedText(setting: HostSetting, proxy: string, text: string, previous: Previous): string {
    UpdatedText(text, RevertUpdates(setting, proxy, previous), setting.section)
  }

  /** A re-patch keeps what was captured first. */
  function StoredAfter(setting: HostSetting, proxy: string, text: string, stored: Option<Previous>): Previous {
    if Extract(text, setting.hostKey, setting.section) == Some(proxy) && stored.Some? then stored.value
    else Captured(setting, text)
  }

  /** The ini file, if there is one, and the saved patch state. */
  class PatchedIni {
    var text: Option<string>
    var stored: Option<Previous>

    constructor (text: Option<string>, stored: Option<Previous>)
      ensures this.text == text && this.stored == stored
    {
      this.text, this.stored := text, stored;
    }

    /** `patch` */
    method Patch(setting: HostSetting, proxy: string) returns (r: PatchResult)
      requires setting.hostKey != setting.hardcoreKey
      modifies `text
      ensures r.fileExists <==> old(text).Some?
      ensures text == if old(text).Some? then Some(PatchedText(setting, proxy, old(text).value)) else None
      ensures r.previous == if old(text).Some? then Captured(setting, old(text).value) else Previous(None, None)
      ensures r.alreadyPatched <==> r.previous.host == Some(proxy)
      ensures r.changed <==> text != old(text)
    {
      if text.None? {
        return PatchResult(false, false, false, Previous(None, None));
      }
      var original := text.value;
      var host := ExtractValue(original, setting.hostKey, setting.section);
      var hardcore := ExtractValue(original, setting.hardcoreKey, setting.section);
      var transformed := UpdateSection(original, PatchUpdates(setting, proxy), setting.section);
      if transformed != original {
        text := Some(transformed);
      }
      r := PatchResult(true, transformed != original, host == Some(proxy), Previous(host, hardcore));
    }

    /** `store_previous` */
    method StorePrevious(result: PatchResult)
      modifies `stored
      ensures stored == if result.alreadyPatched && old(stored).Some? then old(stored) else Some(result.previous)
    {
      if !(result.alreadyPatched && stored.Some?) {
        stored := Some(result.previous);
      }
    }

    /** `revert` with what was stored. */
    method Revert(setting: HostSetting, proxy: string)
      requires setting.hostKey != setting.hardcoreKey
      modifies `text
      ensures text == if old(text).None? then None
        else
          var previous := if stored.Some? then stored.value else Previous(None, None);
          Some(RevertedText(setting, proxy, old(text).value, previous))
    {
      if text.None? {
        return;
      }
      var previous := if stored.Some? then stored.value else Previous(None, None);
      var transformed := UpdateSection(text.value, RevertUpdates(setting, proxy, previous), setting.section);
      text := Some(transformed);
    }

    /** Any number of patches, each followed by storing what it captured. */
    method PatchTimes(setting: HostSetting, proxy: string, n: nat)
      requires ValidSetting(setting, proxy) && text.Some? && OnlyNewlines(text.value) && n > 0
      modifies this
      ensures text == Some(PatchedText(setting, proxy, old(text).value))
      ensures stored == Some(StoredAfter(setting, proxy, old(text).value, old(stored)))
    {
      ghost var original := text.value;
      for i := 0 to n
        invariant i == 0 ==> text == old(text) && stored == old(stored)
        invariant i > 0 ==> text == Some(PatchedText(setting, proxy, original))
        invariant i > 0 ==> stored == Some(StoredAfter(setting, proxy, original, old(stored)))
      {
        PatchAgain(setting, proxy, original, PatchedText(setting, proxy, original));
        var result := Patch(setting, proxy);
        StorePrevious(result);
      }
    }

    /** Any run of patches and one revert leave every value of every section as it was. */
    method PatchAndRevert(setting: HostSetting, proxy: string, n: nat)
      requires ValidSetting(setting, proxy) && text.Some? && OnlyNewlines(text.value) && n > 0
      requires Extract(text.value, setting.hostKey, setting.section) != Some(proxy)
      modifies this
      ensures text.Some?
      ensures forall s, k :: Extract(text.value, k, s) == Extract(old(text).value, k, s)
    {
      ghost var original := text.value;
      PatchTimes(setting, proxy, n);
      Revert(setting, proxy);
      forall s, k
        ensures Extract(text.value, k, s) == Extract(original, k, s)
      {
        RevertUndoes(setting, proxy, original, s, k);
      }
    }
  }

  // Texts taken apart.

  lemma EmptyLineSaysNothing(lines: seq<string>, s: string, k: string)
    ensures ExtractFrom(lines + [""], false, s, k) == ExtractFrom(lines, false, s, k)
  {
    ExtractConcat(lines, [""], false, s, k);
    assert [""][1..] == [];
    assert Strip("") == "";
  }

  lemma ExtractBySplit(text: string, s: string, k: string)
    requires OnlyNewlines(text)
    ensures Extract(text, k, s) == ExtractFrom(Split(text), false, s, k)
  {
    SplitLinesIsSplit(text);
    EmptyLineSaysNothing(SplitLines(text), s, k);
  }

  lemma {:induction false} TrailingNewlines(text: string, s: string, k: string)
    ensures ExtractFrom(Split(RStripNewlines(text)), false, s, k) == ExtractFrom(Split(text), false, s, k)
    ensures OnlyNewlines(text) ==> OnlyNewlines(RStripNewlines(text))
    ensures forall line <- Split(RStripNewlines(text)) :: line in Split(text)
    decreases |text|
  {
    if text != "" && text[|text| - 1] == '\n' {
      var front := text[..|text| - 1];
      TrailingNewlines(front, s, k);
      assert text == front + "\n" + "";
      SplitConcat(front, "");
      EmptyLineSaysNothing(Split(front), s, k);
    }
  }

  /** `text` says what the parts say, and writing other lines into the section gives `made`. */
  ghost predicate Holds(text: string, p: Parts, section: string) {
    && ValidParts(p, section) && AllNoBreak(p.Whole())
    && OnlyNewlines(text) && Split(text) == p.Whole()
  }

  lemma HoldsSays(text: string, p: Parts, section: string, s: string, k: string)
    requires Holds(text, p, section) && ValidSection(section)
    ensures Extract(text, k, s) == PartsValue(p, section, s, k)
  {
    ExtractBySplit(text, s, k);
    ExtractParts(p, section, s, k);
  }

  lemma UpdatedLinesOfParts(p: Parts, section: string, u: Updates)
    requires ValidParts(p, section) && ValidUpdates(u)
    ensures FindSection(p.Whole(), section).Some?
    ensures UpdatedLines(p.Whole(), u, section) == p.(block := Updated(p.block, u)).Whole()
    ensures ValidParts(p.(block := Updated(p.block, u)), section)
  {
    hide IsHeader, ValidUpdates, Updated, Strip, FirstValue, KeyCount, Lookup;
    PartsFound(p, section);
    UpdatedValues(p.block, u, "");
    assert UpdatedLines(p.Whole(), u, section)
      == PartsOf(p.Whole(), section).(block := Updated(p.block, u)).Whole();
  }

  lemma UpdateHolds(text: string, p: Parts, section: string, u: Updates)
    requires Holds(text, p, section) && ValidUpdates(u)
    ensures Holds(UpdatedText(text, u, section), p.(block := Updated(p.block, u)), section)
  {
    hide NoBreak, ValidParts, ValidUpdates, Updated, UpdatedLines, FindSection, Join, Split;
    var q := p.(block := Updated(p.block, u));
    UpdatedLinesOfParts(p, section, u);
    PiecesNoBreak(p);
    UpdatedNoBreaks(p.block, u);
    WholeNoBreak(q);
    SplitJoin(q.Whole());
    JoinIsText(q.Whole());
  }

  lemma PiecesNoBreak(p: Parts)
    requires AllNoBreak(p.Whole())
    ensures AllNoBreak(p.before) && NoBreak(p.header) && AllNoBreak(p.block) && AllNoBreak(p.after)
  {
    hide NoBreak;
    var w := p.Whole();
    assert w[|p.before|] == p.header;
    forall i | 0 <= i < |p.before|
      ensures NoBreak(p.before[i])
    {
      assert w[i] == p.before[i];
    }
    forall i | 0 <= i < |p.block|
      ensures NoBreak(p.block[i])
    {
      assert w[|p.before| + 1 + i] == p.block[i];
    }
    forall i | 0 <= i < |p.after|
      ensures NoBreak(p.after[i])
    {
      assert w[|p.before| + 1 + |p.block| + i] == p.after[i];
    }
  }

  lemma WholeNoBreak(p: Parts)
    requires AllNoBreak(p.before) && NoBreak(p.header) && AllNoBreak(p.block) && AllNoBreak(p.after)
    ensures AllNoBreak(p.Whole())
  {
    hide NoBreak;
  }

  // The text before and after the first patch.

  /** The text around the section; without the section, as if it stood empty at the end. */
  function StartParts(text: string, section: string): Parts {
    var lines := Split(text);
    if FindSection(lines, section).Some? then PartsOf(lines, section)
    else Parts(Split(RStripNewlines(text)), section, [], [])
  }

  function PatchedParts(setting: HostSetting, proxy: string, text: string): Parts {
    var p, u := StartParts(text, setting.section), PatchUpdates(setting, proxy);
    p.(block := if FindSection(Split(text), setting.section).Some? then Updated(p.block, u) else RenderAll(u) + [""])
  }

  lemma StartSays(text: string, section: string, s: string, k: string)
    requires OnlyNewlines(text) && ValidSection(section)
    ensures Extract(text, k, s) == PartsValue(StartParts(text, section), section, s, k)
  {
    var lines := Split(text);
    ExtractBySplit(text, s, k);
    if FindSection(lines, section).Some? {
      PartsOfIsValid(lines, section);
      ExtractParts(PartsOf(lines, section), section, s, k);
    } else {
      TrailingNewlines(text, s, k);
      if s == section {
        NeverInside(lines, s, k);
      }
    }
  }

  lemma PatchUpdatesValid(setting: HostSetting, proxy: string)
    requires ValidSetting(setting, proxy)
    ensures ValidUpdates(PatchUpdates(setting, proxy)) && AllSet(PatchUpdates(setting, proxy))
    ensures RenderAll(PatchUpdates(setting, proxy))
      == [Render(setting.hostKey, proxy), Render(setting.hardcoreKey, setting.hardcoreOff)]
  {
    var u := PatchUpdates(setting, proxy);
    assert RenderAll(u[1..][1..]) == [];
    assert u[1..][0] == u[1];
  }

  lemma PatchedHolds(setting: HostSetting, proxy: string, text: string)
    requires ValidSetting(setting, proxy) && OnlyNewlines(text)
    ensures Holds(PatchedText(setting, proxy, text), PatchedParts(setting, proxy, text), setting.section)
  {
    hide NoBreak, IsHeader, ValidKey, ValidValue, KeyOf;
    var lines, section, u := Split(text), setting.section, PatchUpdates(setting, proxy);
    PatchUpdatesValid(setting, proxy);
    SplitHasNoBreaks(text);
    if FindSection(lines, section).Some? {
      PartsOfIsValid(lines, section);
      UpdateHolds(text, PartsOf(lines, section), section, u);
    } else {
      AppendedHolds(setting, proxy, text);
    }
  }

  /** Splitting the text with a section appended. */
  lemma SplitAppended(trimmed: string, section: string, all: seq<string>)
    requires all != [] && AllNoBreak(all) && NoBreak(section)
    ensures Split(trimmed + "\n" + section + "\n" + Join(all) + "\n") == Split(trimmed) + [section] + all + [""]
  {
    hide NoBreak, Split, Join;
    var body := Join(all) + "\n" + "";
    SplitConcat(Join(all), "");
    SplitConcat(section, body);
    SplitConcat(trimmed, section + "\n" + body);
    SplitLine(section);
    SplitJoin(all);
    Reassociate(trimmed, section, Join(all));
    assert Split(body) == all + Split("");
    SplitLine("");
    assert Split(trimmed) + ([section] + (all + [""])) == Split(trimmed) + [section] + all + [""];
  }

  lemma Reassociate(a: string, b: string, c: string)
    ensures a + "\n" + b + "\n" + c + "\n" == a + "\n" + (b + "\n" + (c + "\n" + ""))
  {
  }

  lemma AppendedParts(setting: HostSetting, proxy: string, text: string)
    requires ValidSetting(setting, proxy) && OnlyNewlines(text) && FindSection(Split(text), setting.section).None?
    ensures var p := PatchedParts(setting, proxy, text);
      ValidParts(p, setting.section) && AllNoBreak(p.Whole())
  {
    hide IsHeader, ValidKey, ValidValue, KeyOf, Render, NoBreak;
    var section, u := setting.section, PatchUpdates(setting, proxy);
    PatchUpdatesValid(setting, proxy);
    RenderedValues(u, "");
    TrailingNewlines(text, section, "");
    var p := PatchedParts(setting, proxy, text);
    SplitHasNoBreaks(RStripNewlines(text));
    EmptyLineIsNoHeader();
    WholeNoBreak(p);
    forall i | 0 <= i < |p.before|
      ensures Strip(p.before[i]) != section
    {
      assert p.before[i] in Split(text);
    }
    StripTrims(section);
  }

  lemma AppendedHolds(setting: HostSetting, proxy: string, text: string)
    requires ValidSetting(setting, proxy) && OnlyNewlines(text) && FindSection(Split(text), setting.section).None?
    ensures Holds(PatchedText(setting, proxy, text), PatchedParts(setting, proxy, text), setting.section)
  {
    hide ValidKey, ValidValue, KeyOf, Render, NoBreak, ValidParts, Join, Split, Strip;
    var u := PatchUpdates(setting, proxy);
    PatchUpdatesValid(setting, proxy);
    RenderedValues(u, "");
    AppendedParts(setting, proxy, text);
    SplitAppended(RStripNewlines(text), setting.section, RenderAll(u));
    var made, p := PatchedText(setting, proxy, text), PatchedParts(setting, proxy, text);
    assert p.Whole() == Split(RStripNewlines(text)) + [setting.section] + RenderAll(u) + [""];
    JoinSplit(made);
    JoinIsText(p.Whole());
  }

  lemma EmptyLineIsNoHeader()
    ensures !IsHeader("") && KeyOf("").None? && NoBreak("")
  {
  }

  /** What the section's lines are after a patch. */
  lemma PatchedBlock(setting: HostSetting, proxy: string, text: string, k: string)
    requires ValidSetting(setting, proxy)
    ensures var before, after, u :=
      StartParts(text, setting.section).block, PatchedParts(setting, proxy, text).block, PatchUpdates(setting, proxy);
      && Updated(after, u) == after
      && (Lookup(u, k).None? ==>
            FirstValue(after, k) == FirstValue(before, k) && KeyCount(after, k) == KeyCount(before, k))
      && (Lookup(u, k).Some? ==>
            && FirstValue(after, k) == Lookup(u, k).value
            && KeyCount(after, k) == if KeyCount(before, k) == 0 then 1 else KeyCount(before, k))
  {
    hide IsHeader, ValidKey, ValidValue, KeyOf, Render;
    var u := PatchUpdates(setting, proxy);
    PatchUpdatesValid(setting, proxy);
    if FindSection(Split(text), setting.section).Some? {
      var before := StartParts(text, setting.section).block;
      PartsOfIsValid(Split(text), setting.section);
      UpdatedValues(before, u, k);
      UpdatedTwice(before, u);
    } else {
      AppendedBlock(setting, proxy, k);
    }
  }

  lemma AppendedBlock(setting: HostSetting, proxy: string, k: string)
    requires ValidSetting(setting, proxy)
    ensures var u := PatchUpdates(setting, proxy);
      var block := RenderAll(u) + [""];
      && Updated(block, u) == block
      && FirstValue(block, k) == (if Lookup(u, k).Some? then Lookup(u, k).value else None)
      && KeyCount(block, k) == if Lookup(u, k).Some? then 1 else 0
  {
    hide IsHeader, ValidKey, ValidValue, KeyOf, Render;
    var u := PatchUpdates(setting, proxy);
    PatchUpdatesValid(setting, proxy);
    RenderedKey(setting.hostKey, proxy);
    RenderedKey(setting.hardcoreKey, setting.hardcoreOff);
    EmptyLineIsNoHeader();
    var block := RenderAll(u) + [""];
    assert u[1..] == [u[1]] && u[1..][1..] == [];
    assert block[1..] == [block[1], ""] && block[1..][1..] == [""] && block[1..][1..][1..] == [];
    assert [""][1..] == [] && KeyCount([], k) == 0;
    assert KeyCount([""], k) == (if KeyOf("") == Some(k) then 1 else 0) + KeyCount([""][1..], k);
    assert FirstValue([""], k).None? && KeyCount([""], k) == 0;
    assert FirstValue(block[1..], k) == if k == setting.hardcoreKey then Some(setting.hardcoreOff) else None;
    assert KeyCount(block[1..], k) == if k == setting.hardcoreKey then 1 else 0;
    assert Lookup(u, k) == if k == setting.hostKey then Some(u[0].1) else Lookup([u[1]], k);
    assert Without(u, setting.hostKey) == [u[1]];
    assert Without([u[1]], setting.hardcoreKey) == [];
    assert Updated([""], []) == [""];
    assert Updated([block[1], ""], [u[1]]) == [block[1]] + [""];
  }

  /** Patching a patched text changes nothing, and it says the proxy is the host. */
  lemma PatchAgain(setting: HostSetting, proxy: string, text: string, patched: string)
    requires ValidSetting(setting, proxy) && OnlyNewlines(text) && patched == PatchedText(setting, proxy, text)
    ensures PatchedText(setting, proxy, patched) == patched
    ensures Extract(patched, setting.hostKey, setting.section) == Some(proxy)
  {
    hide ValidUpdates, NoBreak, ValidParts, Updated, UpdatedLines, FindSection, Join, Split, FirstValue,
      PatchedParts, KeyCount;
    var p, u := PatchedParts(setting, proxy, text), PatchUpdates(setting, proxy);
    PatchedHolds(setting, proxy, text);
    PatchedBlock(setting, proxy, text, setting.hostKey);
    HoldsSays(patched, p, setting.section, setting.section, setting.hostKey);
    PatchUpdatesValid(setting, proxy);
    UpdatedLinesOfParts(p, setting.section, u);
    assert p.(block := Updated(p.block, u)) == p;
    JoinSplit(patched);
  }

  // Reverting.

  lemma {:induction false} ExtractedIsValid(lines: seq<string>, inSection: bool, s: string, k: string)
    requires AllNoBreak(lines) && ExtractFrom(lines, inSection, s, k).Some?
    ensures ValidValue(ExtractFrom(lines, inSection, s, k).value)
  {
    hide IsHeader;
    var line := lines[0];
    if !IsHeader(line) && inSection && KeyOf(line) == Some(k) {
      var t := Strip(line);
      var i := IndexOf(t, '=');
      StripTrims(line);
      StripTrims(t[i + 1..]);
      CharsOfLine(line, t, t[i + 1..], Strip(t[i + 1..]));
    } else {
      ExtractedIsValid(lines[1..], if IsHeader(line) then Strip(line) == s else inSection, s, k);
    }
  }

  lemma CharsOfLine(line: string, a: string, b: string, c: string)
    requires NoBreak(line) && (forall x <- a :: x in line) && (forall x <- b :: x in a) && (forall x <- c :: x in b)
    ensures NoBreak(c)
  {
    forall i | 0 <= i < |c|
      ensures c[i] != '\n' && !OtherBreak(c[i])
    {
      assert c[i] in line;
    }
  }

  lemma CapturedIsValid(setting: HostSetting, proxy: string, text: string)
    requires ValidSetting(setting, proxy) && OnlyNewlines(text)
    ensures ValidUpdates(RevertUpdates(setting, proxy, Captured(setting, text)))
  {
    hide ValidKey;
    SplitHasNoBreaks(text);
    var previous := Captured(setting, text);
    ExtractBySplit(text, setting.section, setting.hostKey);
    ExtractBySplit(text, setting.section, setting.hardcoreKey);
    if previous.host.Some? {
      ExtractedIsValid(Split(text), false, setting.section, setting.hostKey);
    }
    if previous.hardcore.Some? {
      ExtractedIsValid(Split(text), false, setting.section, setting.hardcoreKey);
    }
  }

  lemma RevertHolds(setting: HostSetting, proxy: string, text: string)
    requires ValidSetting(setting, proxy) && OnlyNewlines(text)
    ensures var p, r := PatchedParts(setting, proxy, text), RevertUpdates(setting, proxy, Captured(setting, text));
      && ValidUpdates(r) && NoHeaders(p.block)
      && Holds(RevertedText(setting, proxy, PatchedText(setting, proxy, text), Captured(setting, text)),
               p.(block := Updated(p.block, r)), setting.section)
  {
    hide IsHeader, ValidKey, ValidValue, KeyOf, Render, NoBreak;
    PatchedHolds(setting, proxy, text);
    CapturedIsValid(setting, proxy, text);
    UpdateHolds(PatchedText(setting, proxy, text), PatchedParts(setting, proxy, text), setting.section,
                RevertUpdates(setting, proxy, Captured(setting, text)));
  }

  lemma SameAround(setting: HostSetting, proxy: string, text: string)
    ensures PatchedParts(setting, proxy, text).before == StartParts(text, setting.section).before
    ensures PatchedParts(setting, proxy, text).after == StartParts(text, setting.section).after
  {
  }

  lemma UpdateLookups(setting: HostSetting, proxy: string, previous: Previous, k: string)
    requires setting.hostKey != setting.hardcoreKey
    ensures Lookup(PatchUpdates(setting, proxy), k).Some? <==> k == setting.hostKey || k == setting.hardcoreKey
    ensures Lookup(RevertUpdates(setting, proxy, previous), k)
      == if k == setting.hostKey then Some(if previous.host == Some(proxy) then None else previous.host)
         else if k == setting.hardcoreKey then Some(previous.hardcore) else None
  {
  }

  /** What the section says of a key after the revert, with what later sections of its name say. */
  lemma RevertedBlock(setting: HostSetting, proxy: string, text: string, k: string)
    requires ValidSetting(setting, proxy) && OnlyNewlines(text)
    requires Extract(text, setting.hostKey, setting.section) != Some(proxy)
    ensures var start, r := StartParts(text, setting.section), RevertUpdates(setting, proxy, Captured(setting, text));
      var after := ExtractFrom(start.after, false, setting.section, k);
      Or(FirstValue(Updated(PatchedParts(setting, proxy, text).block, r), k), after) ==
        Or(FirstValue(start.block, k), after)
  {
    var p, r := PatchedParts(setting, proxy, text), RevertUpdates(setting, proxy, Captured(setting, text));
    RevertHolds(setting, proxy, text);
    hide ValidKey, ValidValue, ValidSection, NoBreak, Updated, Holds, StartParts, PatchedParts, FirstValue, KeyCount,
      Extract, ExtractFrom,
      RevertedText, PatchedText, NoHeaders, ValidUpdates, Lookup, PatchUpdates, RevertUpdates, OnlyNewlines;
    UpdateLookups(setting, proxy, Captured(setting, text), k);
    StartSays(text, setting.section, setting.section, k);
    PatchedBlock(setting, proxy, text, k);
    UpdatedValues(p.block, r, k);
    NoneWithoutKey(StartParts(text, setting.section).block, k);
  }

  lemma RevertUndoes(setting: HostSetting, proxy: string, text: string, s: string, k: string)
    requires ValidSetting(setting, proxy) && OnlyNewlines(text)
    requires Extract(text, setting.hostKey, setting.section) != Some(proxy)
    ensures Extract(RevertedText(setting, proxy, PatchedText(setting, proxy, text), Captured(setting, text)), k, s)
      == Extract(text, k, s)
  {
    hide ValidKey, ValidValue, ValidSection, NoBreak, Updated, Holds, StartParts, PatchedParts, FirstValue, KeyCount,
      Extract, ExtractFrom,
      RevertedText, PatchedText, NoHeaders, ValidUpdates, Captured, RevertUpdates, OnlyNewlines, Or;
    var p, r := PatchedParts(setting, proxy, text), RevertUpdates(setting, proxy, Captured(setting, text));
    RevertHolds(setting, proxy, text);
    SameAround(setting, proxy, text);
    HoldsSays(RevertedText(setting, proxy, PatchedText(setting, proxy, text), Captured(setting, text)),
              p.(block := Updated(p.block, r)), setting.section, s, k);
    StartSays(text, setting.section, s, k);
    RevertedBlock(setting, proxy, text, k);
  }

  /** The host key stands once, in the first section of that name. */
  predicate HostOnce(setting: HostSetting, text: string) {
    var p := StartParts(text, setting.section);
    KeyCount(p.block, setting.hostKey) <= 1 && ExtractFrom(p.after, false, setting.section, setting.hostKey).None?
  }

  /** With nothing stored before and the host key given once, patching and reverting restores
      every value exactly if the host was not the proxy already. */
  lemma RevertUndoesExactly(setting: HostSetting, proxy: string, text: string)
    requires ValidSetting(setting, proxy) && OnlyNewlines(text) && HostOnce(setting, text)
    ensures var reverted := RevertedText(setting, proxy, PatchedText(setting, proxy, text), Captured(setting, text));
      (forall s, k :: Extract(reverted, k, s) == Extract(text, k, s))
      <==> Extract(text, setting.hostKey, setting.section) != Some(proxy)
  {
    hide IsHeader, ValidKey, ValidValue, KeyOf, Render, NoBreak, Updated;
    var reverted := RevertedText(setting, proxy, PatchedText(setting, proxy, text), Captured(setting, text));
    if Extract(text, setting.hostKey, setting.section) != Some(proxy) {
      forall s, k
        ensures Extract(reverted, k, s) == Extract(text, k, s)
      {
        RevertUndoes(setting, proxy, text, s, k);
      }
    } else {
      var p, r, key := PatchedParts(setting, proxy, text), RevertUpdates(setting, proxy, Captured(setting, text)),
        setting.hostKey;
      RevertHolds(setting, proxy, text);
      HoldsSays(reverted, p.(block := Updated(p.block, r)), setting.section, setting.section, key);
      PatchedBlock(setting, proxy, text, key);
      UpdatedValues(p.block, r, key);
      assert Extract(reverted, key, setting.section).None?;
    }
  }
}
