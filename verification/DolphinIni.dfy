/**
 Dolphin's own patching of its ini (linux/raofflineproxy/dolphin_cfg.py). It uses the section update
 of the other emulators, but calls a text already patched only if patching it changes nothing, and
 writes "False" back where the hardcore setting was not set.
 */
module DolphinIni {
  import opened Bytes
  import opened IniText
  import opened IniSection
  import opened AchievementsIni

  const DOLPHIN := HostSetting("[Achievements]", "HostUrl", "HardcoreEnabled", "False")

  /** `build_reverted_dolphin_ini` after `_sanitize_previous`. */
  function DolphinRevertUpdates(proxy: string, previous: Previous): Updates {
    [(DOLPHIN.hostKey, if previous.host == Some(proxy) then None else previous.host),
     (DOLPHIN.hardcoreKey, Some(HardcoreBack(previous.hardcore)))]
  }

  /** `previous.get(HARDCORE_KEY) or "False"` */
  function HardcoreBack(value: Option<string>): string {
    if value.Some? && value.value != "" then value.value else DOLPHIN.hardcoreOff
  }

  function DolphinRevertedText(proxy: string, text: string, previous: Previous): string {
    UpdatedText(text, DolphinRevertUpdates(proxy, previous), DOLPHIN.section)
  }

  function Patched(proxy: string, text: string): string {
    PatchedText(DOLPHIN, proxy, text)
  }

  /** What is stored after patching `text`. */
  function DolphinStoredAfter(proxy: string, text: string, stored: Option<Previous>): Previous {
    if Patched(proxy, text) == text && Captured(DOLPHIN, text).host == Some(proxy) && stored.Some? then stored.value
    else Captured(DOLPHIN, text)
  }

  /** Letters and brackets. */
  predicate Letters(s: string) {
    s != "" && forall i :: 0 <= i < |s| ==> 'A' <= s[i] <= 'z'
  }

  lemma LettersAreFine(s: string)
    requires Letters(s)
    ensures Stripped(s) && NoBreak(s) && '=' !in s
  {
  }

  lemma DolphinNames()
    ensures Letters(DOLPHIN.section) && Letters(DOLPHIN.hostKey) && Letters(DOLPHIN.hardcoreKey) &&
      Letters(DOLPHIN.hardcoreOff)
    ensures DOLPHIN.section[0] == '[' && DOLPHIN.section[|DOLPHIN.section| - 1] == ']'
    ensures DOLPHIN.hostKey[0] != '[' && DOLPHIN.hardcoreKey[0] != '['
    ensures DOLPHIN.hostKey != DOLPHIN.hardcoreKey
  {
    assert DOLPHIN.hostKey[1] == 'o' && DOLPHIN.hardcoreKey[1] == 'a';
  }

  lemma DolphinIsValid(proxy: string)
    requires ValidValue(proxy)
    ensures ValidSetting(DOLPHIN, proxy)
  {
    hide Letters, Stripped, NoBreak;
    DolphinNames();
    LettersAreFine(DOLPHIN.section);
    LettersAreFine(DOLPHIN.hostKey);
    LettersAreFine(DOLPHIN.hardcoreKey);
    LettersAreFine(DOLPHIN.hardcoreOff);
    NotEmpty(DOLPHIN.section);
    NotEmpty(DOLPHIN.hostKey);
    NotEmpty(DOLPHIN.hardcoreKey);
  }

  lemma NotEmpty(s: string)
    requires Letters(s)
    ensures s != ""
  {
  }

  class DolphinFile {
    var text: Option<string>
    var stored: Option<Previous>

    constructor (text: Option<string>, stored: Option<Previous>)
      ensures this.text == text && this.stored == stored
    {
      this.text, this.stored := text, stored;
    }

    /** `patch_dolphin_ini` */
    method Patch(proxy: string) returns (r: PatchResult)
      modifies `text
      ensures r.fileExists <==> old(text).Some?
      ensures text == if old(text).Some? then Some(Patched(proxy, old(text).value)) else None
      ensures r.previous == if old(text).Some? then Captured(DOLPHIN, old(text).value) else Previous(None, None)
      ensures r.changed <==> text != old(text)
      ensures r.alreadyPatched <==> old(text).Some? && !r.changed && r.previous.host == Some(proxy)
    {
      if text.None? {
        return PatchResult(false, false, false, Previous(None, None));
      }
      var original := text.value;
      var host := ExtractValue(original, DOLPHIN.hostKey, DOLPHIN.section);
      var hardcore := ExtractValue(original, DOLPHIN.hardcoreKey, DOLPHIN.section);
      var transformed := UpdateSection(original, PatchUpdates(DOLPHIN, proxy), DOLPHIN.section);
      if transformed != original {
        text := Some(transformed);
      }
      var already := transformed == original && host == Some(proxy);
      r := PatchResult(true, transformed != original, already, Previous(host, hardcore));
    }

    /** `store_dolphin_previous` */
    method StorePrevious(result: PatchResult)
      modifies `stored
      ensures stored == if result.alreadyPatched && old(stored).Some? then old(stored) else Some(result.previous)
    {
      if !(result.alreadyPatched && stored.Some?) {
        stored := Some(result.previous);
      }
    }

    /** `revert_dolphin_ini` with what was stored. */
    method Revert(proxy: string)
      modifies `text
      ensures text == if old(text).None? then None
        else
          var previous := if stored.Some? then stored.value else Previous(None, None);
          Some(DolphinRevertedText(proxy, old(text).value, previous))
    {
      if text.None? {
        return;
      }
      var previous := if stored.Some? then stored.value else Previous(None, None);
      var transformed := UpdateSection(text.value, DolphinRevertUpdates(proxy, previous), DOLPHIN.section);
      text := Some(transformed);
    }

    /** Any run of patches and one revert, with nobody editing the file in between: every value is
        as it was, but the hardcore setting is "False" if it was empty or not set. */
    method PatchAndRevert(proxy: string, n: nat)
      requires ValidValue(proxy) && text.Some? && OnlyNewlines(text.value) && n > 0
      requires Extract(text.value, DOLPHIN.hostKey, DOLPHIN.section) != Some(proxy)
      modifies this
      ensures text.Some?
      ensures forall s, k :: Extract(text.value, k, s) == AfterDolphinRevert(old(text).value, s, k)
    {
      ghost var original := text.value;
      DolphinIsValid(proxy);
      for i := 0 to n
        invariant i == 0 ==> text == old(text) && stored == old(stored)
        invariant i > 0 ==> text == Some(Patched(proxy, original))
        invariant i > 0 ==> stored == Some(Captured(DOLPHIN, original))
      {
        PatchAgain(DOLPHIN, proxy, original, Patched(proxy, original));
        var result := Patch(proxy);
        StorePrevious(result);
      }
      Revert(proxy);
      forall s, k
        ensures Extract(text.value, k, s) == AfterDolphinRevert(original, s, k)
      {
        DolphinRevertGives(proxy, original, s, k);
      }
    }
  }

  /** What a text says after patching and reverting it. */
  function AfterDolphinRevert(text: string, s: string, k: string): Option<string> {
    var value := Extract(text, k, s);
    if s == DOLPHIN.section && k == DOLPHIN.hardcoreKey then Some(HardcoreBack(value)) else value
  }

  lemma DolphinLookups(proxy: string, previous: Previous, k: string)
    ensures Lookup(DolphinRevertUpdates(proxy, previous), k)
      == if k == DOLPHIN.hostKey then Some(if previous.host == Some(proxy) then None else previous.host)
         else if k == DOLPHIN.hardcoreKey then Some(Some(HardcoreBack(previous.hardcore))) else None
    ensures Lookup(PatchUpdates(DOLPHIN, proxy), DOLPHIN.hardcoreKey) == Some(Some(DOLPHIN.hardcoreOff))
    ensures Lookup(PatchUpdates(DOLPHIN, proxy), k).Some? <==> k == DOLPHIN.hostKey || k == DOLPHIN.hardcoreKey
  {
  }

  lemma DolphinUpdatesValid(proxy: string, text: string)
    requires ValidValue(proxy) && OnlyNewlines(text)
    ensures ValidUpdates(DolphinRevertUpdates(proxy, Captured(DOLPHIN, text)))
  {
    hide ValidKey, ValidValue, Captured;
    DolphinIsValid(proxy);
    CapturedIsValid(DOLPHIN, proxy, text);
    var r := RevertUpdates(DOLPHIN, proxy, Captured(DOLPHIN, text));
    assert ValidUpdates(r) && r[0] == DolphinRevertUpdates(proxy, Captured(DOLPHIN, text))[0];
    assert r[1].0 == DOLPHIN.hardcoreKey && r[1].1 == Captured(DOLPHIN, text).hardcore;
  }

  lemma DolphinRevertHolds(proxy: string, text: string)
    requires ValidValue(proxy) && OnlyNewlines(text)
    ensures var p, r := PatchedParts(DOLPHIN, proxy, text), DolphinRevertUpdates(proxy, Captured(DOLPHIN, text));
      && ValidUpdates(r) && NoHeaders(p.block)
      && Holds(DolphinRevertedText(proxy, Patched(proxy, text), Captured(DOLPHIN, text)),
               p.(block := Updated(p.block, r)), DOLPHIN.section)
  {
    hide IsHeader, ValidKey, ValidValue, KeyOf, Render, NoBreak, Captured, DolphinRevertUpdates;
    DolphinIsValid(proxy);
    PatchedHolds(DOLPHIN, proxy, text);
    DolphinUpdatesValid(proxy, text);
    UpdateHolds(Patched(proxy, text), PatchedParts(DOLPHIN, proxy, text), DOLPHIN.section,
                DolphinRevertUpdates(proxy, Captured(DOLPHIN, text)));
  }

  lemma DolphinRevertedBlock(proxy: string, text: string, k: string)
    requires ValidValue(proxy) && OnlyNewlines(text)
    requires Extract(text, DOLPHIN.hostKey, DOLPHIN.section) != Some(proxy)
    ensures var start, r := StartParts(text, DOLPHIN.section), DolphinRevertUpdates(proxy, Captured(DOLPHIN, text));
      Or(FirstValue(Updated(PatchedParts(DOLPHIN, proxy, text).block, r), k),
        ExtractFrom(start.after, false, DOLPHIN.section, k))
        == AfterDolphinRevert(text, DOLPHIN.section, k)
  {
    var p, r := PatchedParts(DOLPHIN, proxy, text), DolphinRevertUpdates(proxy, Captured(DOLPHIN, text));
    DolphinIsValid(proxy);
    DolphinRevertHolds(proxy, text);
    hide ValidKey, ValidValue, ValidSection, NoBreak, Updated, Holds, StartParts, PatchedParts, FirstValue, KeyCount,
      Extract, ExtractFrom,
      DolphinRevertedText, PatchedText, NoHeaders, ValidUpdates, Lookup, PatchUpdates, DolphinRevertUpdates,
        OnlyNewlines, HardcoreBack;
    DolphinLookups(proxy, Captured(DOLPHIN, text), k);
    StartSays(text, DOLPHIN.section, DOLPHIN.section, k);
    PatchedBlock(DOLPHIN, proxy, text, k);
    UpdatedValues(p.block, r, k);
    NoneWithoutKey(StartParts(text, DOLPHIN.section).block, k);
  }

  lemma DolphinRevertGives(proxy: string, text: string, s: string, k: string)
    requires ValidValue(proxy) && OnlyNewlines(text)
    requires Extract(text, DOLPHIN.hostKey, DOLPHIN.section) != Some(proxy)
    ensures Extract(DolphinRevertedText(proxy, Patched(proxy, text), Captured(DOLPHIN, text)), k, s) ==
      AfterDolphinRevert(text, s, k)
  {
    hide ValidKey, ValidValue, NoBreak, Updated, Holds, StartParts, PatchedParts, FirstValue, KeyCount, Extract,
      ExtractFrom,
      DolphinRevertedText, Patched, NoHeaders, ValidUpdates, Captured, DolphinRevertUpdates, OnlyNewlines, Or;
    var p, r := PatchedParts(DOLPHIN, proxy, text), DolphinRevertUpdates(proxy, Captured(DOLPHIN, text));
    DolphinIsValid(proxy);
    DolphinRevertHolds(proxy, text);
    SameAround(DOLPHIN, proxy, text);
    HoldsSays(DolphinRevertedText(proxy, Patched(proxy, text), Captured(DOLPHIN, text)),
              p.(block := Updated(p.block, r)), DOLPHIN.section, s, k);
    StartSays(text, DOLPHIN.section, s, k);
    DolphinRevertedBlock(proxy, text, k);
  }

  /** Patch and revert restore every value exactly if the hardcore setting was given. */
  lemma DolphinUndoesExactly(proxy: string, text: string)
    requires ValidValue(proxy) && OnlyNewlines(text)
    requires Extract(text, DOLPHIN.hostKey, DOLPHIN.section) != Some(proxy)
    ensures var reverted := DolphinRevertedText(proxy, Patched(proxy, text), Captured(DOLPHIN, text));
      (forall s, k :: Extract(reverted, k, s) == Extract(text, k, s))
      <==> Extract(text, DOLPHIN.hardcoreKey, DOLPHIN.section) !in {None, Some("")}
  {
    hide Extract, DolphinRevertedText, Patched, Captured, OnlyNewlines, ValidValue;
    var reverted := DolphinRevertedText(proxy, Patched(proxy, text), Captured(DOLPHIN, text));
    forall s, k
      ensures Extract(reverted, k, s) == AfterDolphinRevert(text, s, k)
    {
      DolphinRevertGives(proxy, text, s, k);
    }
    assert Extract(reverted, DOLPHIN.hardcoreKey, DOLPHIN.section)
      == Some(HardcoreBack(Extract(text, DOLPHIN.hardcoreKey, DOLPHIN.section)));
  }

  /** What is said of the hardcore setting once `text` was patched. */
  lemma PatchedIsSoftcore(proxy: string, text: string)
    requires ValidValue(proxy) && OnlyNewlines(text)
    ensures Extract(Patched(proxy, text), DOLPHIN.hardcoreKey, DOLPHIN.section) == Some("False")
  {
    DolphinIsValid(proxy);
    PatchedHolds(DOLPHIN, proxy, text);
    hide ValidKey, ValidValue, NoBreak, Updated, Holds, StartParts, PatchedParts, FirstValue, KeyCount, Extract,
      ExtractFrom,
      PatchedText, ValidUpdates, OnlyNewlines, Lookup, PatchUpdates;
    DolphinLookups(proxy, Previous(None, None), DOLPHIN.hardcoreKey);
    HoldsSays(Patched(proxy, text), PatchedParts(DOLPHIN, proxy, text), DOLPHIN.section, DOLPHIN.section,
      DOLPHIN.hardcoreKey);
    PatchedBlock(DOLPHIN, proxy, text, DOLPHIN.hardcoreKey);
  }

  predicate ValidPrevious(previous: Previous) {
    (previous.host.Some? ==> ValidValue(previous.host.value)) &&
      (previous.hardcore.Some? ==> ValidValue(previous.hardcore.value))
  }

  /** The host after `edited` is patched, what was captured is stored and the file is reverted. */
  function HostAfter(proxy: string, edited: string, stored: Previous): Option<string> {
    Extract(DolphinRevertedText(proxy, Patched(proxy, edited), DolphinStoredAfter(proxy, edited, Some(stored))),
            DOLPHIN.hostKey, DOLPHIN.section)
  }

  /**
   A file that names the proxy is patched once more, whoever wrote it: the stored host comes back
   exactly if patching changes nothing, not even how a line is written.
   */
  lemma HostKeptExactly(proxy: string, edited: string, stored: Previous)
    requires ValidValue(proxy) && OnlyNewlines(edited) && HostOnce(DOLPHIN, edited)
    requires Extract(edited, DOLPHIN.hostKey, DOLPHIN.section) == Some(proxy)
    requires ValidPrevious(stored) && stored.host.Some? && stored.host != Some(proxy)
    ensures HostAfter(proxy, edited, stored) == stored.host <==> Patched(proxy, edited) == edited
  {
    if Patched(proxy, edited) == edited {
      HostRestored(proxy, edited, stored);
    } else {
      NoHostAfterRevert(proxy, edited);
    }
  }

  lemma HostRestored(proxy: string, edited: string, stored: Previous)
    requires ValidValue(proxy) && OnlyNewlines(edited)
    requires ValidPrevious(stored) && stored.host.Some? && stored.host != Some(proxy)
    ensures Extract(DolphinRevertedText(proxy, Patched(proxy, edited), stored), DOLPHIN.hostKey, DOLPHIN.section) ==
      stored.host
  {
    var p, r, key := PatchedParts(DOLPHIN, proxy, edited), DolphinRevertUpdates(proxy, stored), DOLPHIN.hostKey;
    DolphinIsValid(proxy);
    StoredUpdatesValid(proxy, stored);
    PatchedHolds(DOLPHIN, proxy, edited);
    hide ValidKey, ValidValue, ValidSection, NoBreak, Updated, StartParts, PatchedParts, FirstValue, Extract,
      ExtractFrom,
      Patched, NoHeaders, ValidUpdates, OnlyNewlines, Lookup, DolphinRevertUpdates, KeyCount;
    UpdateHolds(PatchedText(DOLPHIN, proxy, edited), p, DOLPHIN.section, r);
    PatchedIsIt(proxy, edited);
    HoldsSays(DolphinRevertedText(proxy, Patched(proxy, edited), stored), p.(block := Updated(p.block, r)),
              DOLPHIN.section, DOLPHIN.section, key);
    DolphinLookups(proxy, stored, key);
    UpdatedValues(p.block, r, key);
  }

  lemma PatchedIsIt(proxy: string, text: string)
    ensures Patched(proxy, text) == PatchedText(DOLPHIN, proxy, text)
  {
  }

  lemma StoredUpdatesValid(proxy: string, stored: Previous)
    requires ValidValue(proxy) && ValidPrevious(stored)
    ensures ValidUpdates(DolphinRevertUpdates(proxy, stored))
  {
    hide ValidKey, ValidValue;
    DolphinIsValid(proxy);
  }

  /** For one, hardcore mode turned on in a patched file loses the host, whatever was stored before.
      The other emulators keep what they captured first. */
  lemma EditBetweenLosesHost(proxy: string, edited: string, stored: Previous)
    requires ValidValue(proxy) && OnlyNewlines(edited)
    requires Extract(edited, DOLPHIN.hostKey, DOLPHIN.section) == Some(proxy)
    requires Extract(edited, DOLPHIN.hardcoreKey, DOLPHIN.section) != Some("False")
    ensures var kept := DolphinStoredAfter(proxy, edited, Some(stored));
      && kept.host == Some(proxy)
      && Lookup(DolphinRevertUpdates(proxy, kept), DOLPHIN.hostKey) == Some(None)
      && (HostOnce(DOLPHIN, edited) ==> HostAfter(proxy, edited, stored).None?)
    ensures StoredAfter(DOLPHIN, proxy, edited, Some(stored)) == stored
  {
    PatchedIsSoftcore(proxy, edited);
    assert Patched(proxy, edited) != edited;
    var kept := Captured(DOLPHIN, edited);
    assert DolphinStoredAfter(proxy, edited, Some(stored)) == kept;
    DolphinLookups(proxy, kept, DOLPHIN.hostKey);
    if HostOnce(DOLPHIN, edited) {
      NoHostAfterRevert(proxy, edited);
    }
  }

  lemma NoHostAfterRevert(proxy: string, edited: string)
    requires ValidValue(proxy) && OnlyNewlines(edited) && HostOnce(DOLPHIN, edited)
    requires Extract(edited, DOLPHIN.hostKey, DOLPHIN.section) == Some(proxy)
    ensures Extract(DolphinRevertedText(proxy, Patched(proxy, edited), Captured(DOLPHIN, edited)), DOLPHIN.hostKey,
      DOLPHIN.section).None?
  {
    var p, r, key := PatchedParts(DOLPHIN, proxy, edited), DolphinRevertUpdates(proxy, Captured(DOLPHIN, edited)),
      DOLPHIN.hostKey;
    DolphinIsValid(proxy);
    DolphinRevertHolds(proxy, edited);
    SameAround(DOLPHIN, proxy, edited);
    hide ValidKey, ValidValue, ValidSection, NoBreak, Updated, Holds, StartParts, PatchedParts, FirstValue, Extract,
      ExtractFrom,
      DolphinRevertedText, Patched, NoHeaders, ValidUpdates, OnlyNewlines, Lookup, DolphinRevertUpdates;
    HoldsSays(DolphinRevertedText(proxy, Patched(proxy, edited), Captured(DOLPHIN, edited)),
              p.(block := Updated(p.block, r)), DOLPHIN.section, DOLPHIN.section, key);
    DolphinLookups(proxy, Captured(DOLPHIN, edited), key);
    PatchedBlock(DOLPHIN, proxy, edited, key);
    UpdatedValues(p.block, r, key);
  }
}
