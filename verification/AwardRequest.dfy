/**
 The form body an award is sent with (linux/raofflineproxy/flusher.py): the queued body with the
 current token, the age of the unlock, the validation hash for that age, and the chain fields.
 The hashes and `int()` of a text are parameters.
 */
module AwardRequest {
  import opened Bytes
  import opened FormParams
  import opened AwardChain
  import Decimal

  const MAX_AWARD_OFFSET_SECONDS := 1_209_600

  /** `validation` is MD5 over achievement, user, hardcore flag and seconds since the unlock. */
  datatype Environment = Environment(
    utf8: Utf8, toInt: string -> Option<int>, validation: (int, string, int, int) -> string, publicKey: string)

  /** `int(n / 1000)`, which rounds towards zero. */
  function WholeSeconds(millis: int): int {
    if millis >= 0 then millis / 1000 else -(-millis / 1000)
  }

  /** `clamp_award_offset_seconds` of the time since queueing. */
  function OffsetSeconds(now: int, queuedAt: int): (r: int)
    ensures 0 <= r <= MAX_AWARD_OFFSET_SECONDS
    ensures r > 0 <==> now - queuedAt >= 1000
    ensures now - queuedAt >= 14 * 24 * 60 * 60 * 1000 ==> r == 14 * 24 * 60 * 60
    ensures 1000 <= now - queuedAt < 1000 * MAX_AWARD_OFFSET_SECONDS ==> r * 1000 <= now - queuedAt < (r + 1) * 1000
  {
    Max(0, Min(MAX_AWARD_OFFSET_SECONDS, WholeSeconds(now - queuedAt)))
  }

  /** The parameters called `name`. */
  function Only(params: seq<Param>, name: string): seq<Param> {
    if params == [] then []
    else (if params[0].name == name then [params[0]] else []) + Only(params[1..], name)
  }

  lemma {:induction false} OnlyLast(params: seq<Param>, name: string)
    ensures Only(params, name) == [] <==> forall i :: 0 <= i < |params| ==> params[i].name != name
    ensures Only(params, name) != [] ==>
      exists i ::
        && 0 <= i < |params| && params[i] == Only(params, name)[|Only(params, name)| - 1] && params[i].name == name
        && forall j :: i < j < |params| ==> params[j].name != name
  {
    if params != [] {
      var own, rest := Only(params, name), Only(params[1..], name);
      OnlyLast(params[1..], name);
      assert forall i :: 1 <= i < |params| ==> params[i] == params[1..][i - 1];
      if rest != [] {
        assert own[|own| - 1] == rest[|rest| - 1];
        var i :| 0 <= i < |params| - 1 && params[1..][i] == rest[|rest| - 1] && params[1..][i].name == name
          && forall j :: i < j < |params| - 1 ==> params[1..][j].name != name;
        assert params[i + 1] == own[|own| - 1];
        assert forall j :: i + 1 < j < |params| ==> params[j].name != name;
      } else if params[0].name == name {
        assert params[0] == own[|own| - 1];
      }
    }
  }

  /** `value` is what the last parameter of that name says, and there is one that says something. */
  ghost predicate Says(params: seq<Param>, name: string, value: string) {
    value != ""
    && exists i ::
         0 <= i < |params| && params[i] == Param(name, value)
         && forall j :: i < j < |params| ==> params[j].name != name
  }

  /** An empty value counts as none. */
  lemma ExtractSays(params: seq<Param>, name: string, value: string)
    ensures Extract(params, name) == Some(value) <==> Says(params, name, value)
  {
    hide Only;
    OnlyLast(params, name);
    var own := Only(params, name);
    if Says(params, name, value) {
      var i :| 0 <= i < |params| && params[i] == Param(name, value)
        && forall j :: i < j < |params| ==> params[j].name != name;
      assert own != [];
      var k :| 0 <= k < |params| && params[k] == own[|own| - 1] && params[k].name == name
        && forall j :: k < j < |params| ==> params[j].name != name;
      assert i == k;
    }
  }

  /** `extract_form_param`: of several the last one counts; `""` is as good as none here. */
  function Extract(params: seq<Param>, name: string): Option<string> {
    var own := Only(params, name);
    if own == [] || own[|own| - 1].value == "" then None else Some(own[|own| - 1].value)
  }

  function IntOr(e: Environment, text: Option<string>, default: int): Option<int> {
    if text.Some? then e.toInt(text.value) else Some(default)
  }

  /** The validation hash for `offset`; none if a number in the body is not one. */
  function Validation(e: Environment, params: seq<Param>, award: Award, offset: int): Option<string> {
    var achievement := IntOr(e, Extract(params, "a"), award.achievementId);
    var user := Extract(params, "u");
    var hardcore := IntOr(e, Extract(params, "h"), 0);
    if achievement.None? || hardcore.None? then None
    else Some(e.validation(achievement.value, if user.Some? then user.value else "", hardcore.value, offset))
  }

  // The edits, one after the other.

  function TokenEdits(token: Option<string>): seq<Param> {
    if token.Some? && token.value != "" then [Param("t", token.value)] else []
  }

  function OffsetEdits(e: Environment, params: seq<Param>, award: Award, offset: int): Outcome<seq<Param>>
    requires offset >= 0
  {
    if offset == 0 then Ok([])
    else
      var v := Validation(e, params, award, offset);
      if v.None? then Raised else Ok([Param("v", v.value), Param("o", Decimal.ToText(offset))])
  }

  function ChainEdits(e: Environment, award: Award): seq<Param> {
    if !Hashed(award) then []
    else [
      Param("ra_chain_payload_hash", award.payloadHash), Param("ra_chain_prev_hash", award.prevHash),
      Param("ra_chain_sig", award.signature), Param("ra_chain_pubkey", e.publicKey)]
  }

  function Rewrite(u: Utf8, body: string, edit: Param): string {
    Render(u, Updated(Parse(u, body), edit.name, edit.value))
  }

  function RewriteAll(u: Utf8, body: string, edits: seq<Param>): string {
    if edits == [] then body else Rewrite(u, RewriteAll(u, body, edits[..|edits| - 1]), edits[|edits| - 1])
  }

  function UpdateAll(params: seq<Param>, edits: seq<Param>): seq<Param> {
    if edits == [] then params
    else
      var last := edits[|edits| - 1];
      Updated(UpdateAll(params, edits[..|edits| - 1]), last.name, last.value)
  }

  function RequestBody(e: Environment, award: Award, now: int, token: Option<string>): Outcome<string> {
    var body := RewriteAll(e.utf8, award.requestBody, TokenEdits(token));
    var edits := OffsetEdits(e, Parse(e.utf8, body), award, OffsetSeconds(now, award.queuedAt));
    if edits.Ok? then Ok(RewriteAll(e.utf8, RewriteAll(e.utf8, body, edits.value), ChainEdits(e, award))) else Raised
  }

  lemma RewriteOneMore(u: Utf8, body: string, edits: seq<Param>, edit: Param)
    ensures RewriteAll(u, body, edits + [edit]) == Rewrite(u, RewriteAll(u, body, edits), edit)
    ensures RewriteAll(u, body, []) == body
  {
    assert (edits + [edit])[..|edits|] == edits;
  }

  /** `build_award_request_body`; `Raised` is the error of `int()`. */
  method BuildAwardRequestBody(e: Environment, award: Award, now: int, token: Option<string>)
    returns (r: Outcome<string>)
    ensures r == RequestBody(e, award, now, token)
  {
    hide Parse, Render, Updated, RewriteAll, Only;
    var u := e.utf8;
    var body := award.requestBody;
    RewriteOneMore(u, body, [], Param("t", if token.Some? then token.value else ""));
    if token.Some? && token.value != "" {
      body := ReplaceOrAppendFormParam(u, body, "t", token.value);
      assert [] + [Param("t", token.value)] == [Param("t", token.value)];
    }
    assert body == RewriteAll(u, award.requestBody, TokenEdits(token));
    var offset := OffsetSeconds(now, award.queuedAt);
    ghost var edits := OffsetEdits(e, Parse(u, body), award, offset);
    ghost var signed := body;
    RewriteOneMore(u, body, [], Param("v", ""));
    if offset > 0 {
      var params := Parse(u, body);
      var v := Validation(e, params, award, offset);
      if v.None? {
        return Raised;
      }
      body := ReplaceOrAppendFormParam(u, body, "v", v.value);
      body := ReplaceOrAppendFormParam(u, body, "o", Decimal.ToText(offset));
      var first, second := Param("v", v.value), Param("o", Decimal.ToText(offset));
      RewriteOneMore(u, signed, [], first);
      RewriteOneMore(u, signed, [first], second);
      assert [] + [first] == [first] && [first] + [second] == [first, second];
    }
    assert edits.Ok? && body == RewriteAll(u, signed, edits.value);
    if award.payloadHash == "" {
      RewriteOneMore(u, body, [], Param("v", ""));
      return Ok(body);
    }
    r := AddChainFields(e, award, body);
  }

  /** The end of `build_award_request_body`. */
  method AddChainFields(e: Environment, award: Award, before: string) returns (r: Outcome<string>)
    requires Hashed(award)
    ensures r == Ok(RewriteAll(e.utf8, before, ChainEdits(e, award)))
  {
    hide Parse, Render, Updated, RewriteAll;
    var u := e.utf8;
    var edits := ChainEdits(e, award);
    var body := ReplaceOrAppendFormParam(u, before, "ra_chain_payload_hash", award.payloadHash);
    RewriteOneMore(u, before, [], edits[0]);
    assert [] + [edits[0]] == edits[..1];
    body := ReplaceOrAppendFormParam(u, body, "ra_chain_prev_hash", award.prevHash);
    RewriteOneMore(u, before, edits[..1], edits[1]);
    assert edits[..1] + [edits[1]] == edits[..2];
    body := ReplaceOrAppendFormParam(u, body, "ra_chain_sig", award.signature);
    RewriteOneMore(u, before, edits[..2], edits[2]);
    assert edits[..2] + [edits[2]] == edits[..3];
    body := ReplaceOrAppendFormParam(u, body, "ra_chain_pubkey", e.publicKey);
    RewriteOneMore(u, before, edits[..3], edits[3]);
    assert edits[..3] + [edits[3]] == edits;
    r := Ok(body);
  }

  // What the server reads.

  lemma {:induction false} OnlyAppends(a: seq<Param>, b: seq<Param>, name: string)
    ensures Only(a + b, name) == Only(a, name) + Only(b, name)
  {
    if a == [] {
      assert a + b == b;
    } else {
      var first := if a[0].name == name then [a[0]] else [];
      assert (a + b)[0] == a[0] && (a + b)[1..] == a[1..] + b;
      OnlyAppends(a[1..], b, name);
      assert first + (Only(a[1..], name) + Only(b, name)) == first + Only(a[1..], name) + Only(b, name);
    }
  }

  lemma {:induction false} OnlyWithout(params: seq<Param>, names: set<string>, name: string)
    ensures Only(Without(params, names), name) == if name in names then [] else Only(params, name)
  {
    if params != [] {
      OnlyWithout(params[1..], names, name);
      OnlyAppends(if params[0].name in names then [] else [params[0]], Without(params[1..], names), name);
      OnlyOne(params[0], name);
    }
  }

  lemma OnlyOne(p: Param, name: string)
    ensures Only([p], name) == (if p.name == name then [p] else []) && Only([], name) == []
  {
    assert [p][1..] == [];
  }

  lemma {:induction false} OnlyNone(params: seq<Param>, name: string)
    requires forall i :: 0 <= i < |params| ==> params[i].name != name
    ensures Only(params, name) == []
  {
    if params != [] {
      OnlyNone(params[1..], name);
    }
  }

  lemma {:induction false} WithoutTwice(params: seq<Param>, inner: set<string>, outer: set<string>)
    requires inner <= outer
    ensures Without(Without(params, inner), outer) == Without(params, outer)
  {
    if params != [] {
      WithoutTwice(params[1..], inner, outer);
      WithoutAppends(if params[0].name in inner then [] else [params[0]], Without(params[1..], inner), outer);
      WithoutOne(params[0], outer);
    }
  }

  lemma WithoutOne(p: Param, names: set<string>)
    ensures Without([p], names) == (if p.name in names then [] else [p]) && Without([], names) == []
  {
    assert [p][1..] == [];
  }

  /** One edit: its name stands there once, everything else stays as and where it was. */
  lemma UpdatedMeans(params: seq<Param>, edit: Param, name: string, names: set<string>)
    ensures var to := Updated(params, edit.name, edit.value);
      && Only(to, name) == (if name == edit.name then [edit] else Only(params, name))
      && (edit.name in names ==> Without(to, names) == Without(params, names))
  {
    hide Only, Without, FirstIndex;
    var k := FirstIndex(params, edit.name);
    var head, tail := params[..k], params[k..];
    var to := Updated(params, edit.name, edit.value);
    assert params == head + tail;
    OnlyAppends(head, tail, name);
    WithoutAppends(head, tail, names);
    OnlyNone(head, edit.name);
    OnlyOne(edit, name);
    WithoutOne(edit, names);
    if k < |params| {
      var rest := Without(params[k + 1..], {edit.name});
      assert tail == [params[k]] + params[k + 1..];
      assert to == head + ([edit] + rest);
      OnlyAppends(head, [edit] + rest, name);
      OnlyAppends([edit], rest, name);
      OnlyAppends([params[k]], params[k + 1..], name);
      OnlyOne(params[k], name);
      OnlyWithout(params[k + 1..], {edit.name}, name);
      WithoutAppends(head, [edit] + rest, names);
      WithoutAppends([edit], rest, names);
      WithoutAppends([params[k]], params[k + 1..], names);
      WithoutOne(params[k], names);
      if edit.name in names {
        WithoutTwice(params[k + 1..], {edit.name}, names);
      }
    } else {
      assert to == head + [edit] && tail == [];
      OnlyAppends(head, [edit], name);
      OnlyOne(edit, name);
      WithoutAppends(head, [edit], names);
    }
  }

  predicate DistinctNames(edits: seq<Param>) {
    forall i, j :: 0 <= i < j < |edits| ==> edits[i].name != edits[j].name
  }

  /** Several edits of different names do not disturb each other. */
  lemma {:induction false} UpdateAllMeans(params: seq<Param>, edits: seq<Param>, name: string, names: set<string>)
    requires DistinctNames(edits)
    ensures var to := UpdateAll(params, edits);
      && (forall i :: 0 <= i < |edits| && edits[i].name == name ==> Only(to, name) == [edits[i]])
      && ((forall i :: 0 <= i < |edits| ==> edits[i].name != name) ==> Only(to, name) == Only(params, name))
      && ((forall i :: 0 <= i < |edits| ==> edits[i].name in names) ==> Without(to, names) == Without(params, names))
  {
    hide Only, Without, Updated;
    if edits != [] {
      var before, last := edits[..|edits| - 1], edits[|edits| - 1];
      UpdateAllMeans(params, before, name, names);
      UpdatedMeans(UpdateAll(params, before), last, name, names);
      assert forall i :: 0 <= i < |before| ==> before[i] == edits[i];
    }
  }

  lemma {:induction false} WithoutSelects(params: seq<Param>, names: set<string>)
    ensures forall p :: p in Without(params, names) ==> p in params
  {
    if params != [] {
      WithoutSelects(params[1..], names);
      assert params == [params[0]] + params[1..];
    }
  }

  lemma UpdatedReads(u: Utf8, params: seq<Param>, edit: Param)
    requires AllReadAsThemselves(u, params) && ReadsAsItself(u, edit.name)
    ensures AllReadAsThemselves(u, Updated(params, edit.name, edit.value))
  {
    hide ReadsAsItself, Without, FirstIndex;
    var k := FirstIndex(params, edit.name);
    var to := Updated(params, edit.name, edit.value);
    if k < |params| {
      WithoutSelects(params[k + 1..], {edit.name});
    }
    forall i | 0 <= i < |to|
      ensures ReadsAsItself(u, to[i].name)
    {
      if i < k {
        assert to[i] == params[i];
      } else if i > k {
        var rest := Without(params[k + 1..], {edit.name});
        assert to[i] == rest[i - k - 1] && rest[i - k - 1] in params[k + 1..];
      }
    }
  }

  /** On names that read as themselves the text is rewritten as the list is. */
  lemma {:induction false} RewriteParses(u: Utf8, body: string, edits: seq<Param>)
    requires IsUtf8(u) && AllReadAsThemselves(u, Parse(u, body)) && AllReadAsThemselves(u, edits)
    ensures Parse(u, RewriteAll(u, body, edits)) == UpdateAll(Parse(u, body), edits)
    ensures AllReadAsThemselves(u, UpdateAll(Parse(u, body), edits))
  {
    hide IsUtf8, ReadsAsItself, Parse, Render, Updated;
    if edits != [] {
      var before, last := edits[..|edits| - 1], edits[|edits| - 1];
      assert forall i :: 0 <= i < |before| ==> before[i] == edits[i];
      RewriteParses(u, body, before);
      UpdatedReads(u, UpdateAll(Parse(u, body), before), last);
      RenderParsesExactly(u, Updated(UpdateAll(Parse(u, body), before), last.name, last.value));
    }
  }

  lemma PlainName(u: Utf8, name: string)
    requires PlainText(name)
    ensures ReadsAsItself(u, name)
  {
    assert PlusToSpace(name) == name;
  }

  lemma {:induction false} UpdateAllAppends(params: seq<Param>, a: seq<Param>, b: seq<Param>)
    ensures UpdateAll(params, a + b) == UpdateAll(UpdateAll(params, a), b)
  {
    hide Updated;
    if b == [] {
      assert a + b == a;
    } else {
      assert (a + b)[..|a + b| - 1] == a + b[..|b| - 1];
      UpdateAllAppends(params, a, b[..|b| - 1]);
    }
  }

  const MANAGED := {"t", "v", "o", "ra_chain_payload_hash", "ra_chain_prev_hash", "ra_chain_sig", "ra_chain_pubkey"}

  /** Lower-case letters and underscores. */
  predicate PlainText(name: string) {
    forall i :: 0 <= i < |name| ==> 'a' <= name[i] <= 'z' || name[i] == '_'
  }

  lemma ManagedNames(u: Utf8)
    ensures forall name :: name in MANAGED ==> ReadsAsItself(u, name)
  {
    forall name | name in MANAGED
      ensures ReadsAsItself(u, name)
    {
      ManagedIsPlain(name);
      PlainName(u, name);
    }
  }

  lemma ManagedIsPlain(name: string)
    requires name in MANAGED
    ensures PlainText(name)
  {
  }

  /** All edits of one request; `None` when a number in the body is not one. */
  function Edits(
      e: Environment, params: seq<Param>, award: Award, now: int, token: Option<string>): Outcome<seq<Param>>
  {
    var edits := OffsetEdits(e, params, award, OffsetSeconds(now, award.queuedAt));
    if edits.Ok? then Ok(TokenEdits(token) + edits.value + ChainEdits(e, award)) else Raised
  }

  lemma EditsAreManaged(e: Environment, params: seq<Param>, award: Award, now: int, token: Option<string>)
    requires Edits(e, params, award, now, token).Ok?
    ensures var edits := Edits(e, params, award, now, token).value;
      DistinctNames(edits) && forall i :: 0 <= i < |edits| ==> edits[i].name in MANAGED
  {
    hide Validation, Decimal.ToText, OffsetSeconds;
  }

  /** Looking at "a", "u" and "h" before or after the token was put in makes no difference. */
  lemma SameOffsetEdits(e: Environment, params: seq<Param>, award: Award, token: Option<string>, offset: nat)
    ensures OffsetEdits(e, UpdateAll(params, TokenEdits(token)), award, offset) == OffsetEdits(e, params, award, offset)
  {
    hide Only, UpdateAll;
    UpdateAllMeans(params, TokenEdits(token), "a", {});
    UpdateAllMeans(params, TokenEdits(token), "u", {});
    UpdateAllMeans(params, TokenEdits(token), "h", {});
  }

  /** What is sent, read again, is what was queued with the edits applied one after the other. */
  lemma RequestParses(e: Environment, award: Award, now: int, token: Option<string>)
    requires IsUtf8(e.utf8) && AllReadAsThemselves(e.utf8, Parse(e.utf8, award.requestBody))
    ensures var params := Parse(e.utf8, award.requestBody);
      var edits, r := Edits(e, params, award, now, token), RequestBody(e, award, now, token);
      && r.Ok? == edits.Ok? && !r.Missing?
      && (r.Ok? ==>
            && Parse(e.utf8, r.value) == UpdateAll(params, edits.value)
            && AllReadAsThemselves(e.utf8, Parse(e.utf8, r.value)))
  {
    hide IsUtf8, ReadsAsItself, Parse, RewriteAll, UpdateAll, OffsetEdits, OffsetSeconds;
    var u := e.utf8;
    var params, first := Parse(u, award.requestBody), TokenEdits(token);
    ManagedNames(u);
    RewriteParses(u, award.requestBody, first);
    var body := RewriteAll(u, award.requestBody, first);
    var offset := OffsetSeconds(now, award.queuedAt);
    SameOffsetEdits(e, params, award, token, offset);
    var second := OffsetEdits(e, params, award, offset);
    OffsetEditsAreManaged(e, params, award, offset);
    if second.Ok? {
      RewriteParses(u, body, second.value);
      var sent := RewriteAll(u, body, second.value);
      RewriteParses(u, sent, ChainEdits(e, award));
      UpdateAllAppends(params, first, second.value);
      UpdateAllAppends(params, first + second.value, ChainEdits(e, award));
    }
  }

  lemma OffsetEditsAreManaged(e: Environment, params: seq<Param>, award: Award, offset: nat)
    ensures var r := OffsetEdits(e, params, award, offset);
      && !r.Missing?
      && (r.Ok? ==> forall i :: 0 <= i < |r.value| ==> r.value[i].name in MANAGED)
  {
    hide Validation, Decimal.ToText;
  }

  /**
   A request that is sent for an unlock at least a second old names its age once, capped at 14 days,
   with the validation hash for just that age; the chain fields of a hashed award stand there once;
   every other parameter keeps its value and its place among the others. A younger unlock keeps
   whatever age and hash the game put in.
   */
  lemma RequestMeans(e: Environment, award: Award, now: int, token: Option<string>)
    requires IsUtf8(e.utf8) && AllReadAsThemselves(e.utf8, Parse(e.utf8, award.requestBody))
    requires RequestBody(e, award, now, token).Ok?
    ensures var params, offset := Parse(e.utf8, award.requestBody), OffsetSeconds(now, award.queuedAt);
      var sent := Parse(e.utf8, RequestBody(e, award, now, token).value);
      && Without(sent, MANAGED) == Without(params, MANAGED)
      && (now - award.queuedAt >= 1000 ==>
            && 1 <= offset <= MAX_AWARD_OFFSET_SECONDS
            && Only(sent, "o") == [Param("o", Decimal.ToText(offset))]
            && Validation(e, params, award, offset).Some?
            && Only(sent, "v") == [Param("v", Validation(e, params, award, offset).value)])
      && (now - award.queuedAt < 1000 ==> Only(sent, "o") == Only(params, "o") && Only(sent, "v") == Only(params, "v"))
      && Only(sent, "t") == (if token.Some? && token.value != "" then [Param("t", token.value)] else Only(params, "t"))
      && (forall p :: p in ChainEdits(e, award) ==> Only(sent, p.name) == [p])
  {
    hide IsUtf8, AllReadAsThemselves, Parse, UpdateAll, Only, Without, Validation, RequestBody, Decimal.ToText;
    RequestParses(e, award, now, token);
    var params := Parse(e.utf8, award.requestBody);
    EditsAreManaged(e, params, award, now, token);
    var edits := Edits(e, params, award, now, token).value;
    UpdateAllMeans(params, edits, "o", MANAGED);
    EditsFound(e, params, award, now, token);
    UpdateAllMeans(params, edits, "v", MANAGED);
    UpdateAllMeans(params, edits, "t", MANAGED);
    var sent := UpdateAll(params, edits);
    forall p | p in ChainEdits(e, award)
      ensures Only(sent, p.name) == [p]
    {
      UpdateAllMeans(params, edits, p.name, MANAGED);
    }
  }

  /** Which edits there are. */
  lemma EditsFound(e: Environment, params: seq<Param>, award: Award, now: int, token: Option<string>)
    requires Edits(e, params, award, now, token).Ok?
    ensures var edits, offset := Edits(e, params, award, now, token).value, OffsetSeconds(now, award.queuedAt);
      && (offset > 0 ==>
            && Validation(e, params, award, offset).Some?
            && Param("v", Validation(e, params, award, offset).value) in edits
            && Param("o", Decimal.ToText(offset)) in edits)
      && (offset == 0 ==> forall i :: 0 <= i < |edits| ==> edits[i].name != "o" && edits[i].name != "v")
      && (if token.Some? && token.value != "" then Param("t", token.value) in edits
          else forall i :: 0 <= i < |edits| ==> edits[i].name != "t")
      && (forall p :: p in ChainEdits(e, award) ==> p in edits)
  {
    hide Validation, Decimal.ToText, OffsetSeconds;
  }

  /** `number` is what `int()` makes of the parameter, or the default where it says nothing. */
  ghost predicate Counts(e: Environment, params: seq<Param>, name: string, default: int, number: Option<int>) {
    && (forall text :: Says(params, name, text) ==> number == e.toInt(text))
    && ((forall text :: !Says(params, name, text)) ==> number == Some(default))
  }

  lemma NumberCounts(e: Environment, params: seq<Param>, name: string, default: int)
    ensures Counts(e, params, name, default, IntOr(e, Extract(params, name), default))
  {
    hide Extract, Says;
    var found := Extract(params, name);
    forall text
      ensures found == Some(text) <==> Says(params, name, text)
    {
      ExtractSays(params, name, text);
    }
    if found.Some? {
      assert Says(params, name, found.value);
    }
  }

  /** The hash is over the achievement of the body, or else of the award, the user of the body, or else
      "", the hardcore flag of the body, or else 0, and the age; without those numbers there is none. */
  lemma ValidationMeans(e: Environment, params: seq<Param>, award: Award, offset: int)
    returns (achievement: Option<int>, hardcore: Option<int>, user: string)
    ensures Counts(e, params, "a", award.achievementId, achievement) && Counts(e, params, "h", 0, hardcore)
    ensures if user == "" then forall text :: !Says(params, "u", text) else Says(params, "u", user)
    ensures Validation(e, params, award, offset)
      == if achievement.None? || hardcore.None? then None
         else Some(e.validation(achievement.value, user, hardcore.value, offset))
  {
    hide Extract, Says, Counts;
    NumberCounts(e, params, "a", award.achievementId);
    NumberCounts(e, params, "h", 0);
    achievement := IntOr(e, Extract(params, "a"), award.achievementId);
    hardcore := IntOr(e, Extract(params, "h"), 0);
    var found := Extract(params, "u");
    user := if found.Some? then found.value else "";
    forall text
      ensures found == Some(text) <==> Says(params, "u", text)
    {
      ExtractSays(params, "u", text);
    }
    EmptySaysNothing(params, "u");
  }

  lemma EmptySaysNothing(params: seq<Param>, name: string)
    ensures !Says(params, name, "")
  {
  }

  /** The request fails exactly when the unlock is a second old and a number it needs is none. */
  lemma RequestFailsExactly(e: Environment, award: Award, now: int, token: Option<string>)
    requires IsUtf8(e.utf8) && AllReadAsThemselves(e.utf8, Parse(e.utf8, award.requestBody))
    ensures RequestBody(e, award, now, token).Ok? <==>
      now - award.queuedAt < 1000
      || Validation(e, Parse(e.utf8, award.requestBody), award, OffsetSeconds(now, award.queuedAt)).Some?
  {
    hide IsUtf8, AllReadAsThemselves, Parse, UpdateAll, Only, Validation, RequestBody, Decimal.ToText;
    RequestParses(e, award, now, token);
  }

  /** The chain fields a request is sent with: those of the award and the public key where it is hashed,
      and whatever was queued where it is not. */
  lemma ChainFieldsSent(e: Environment, award: Award, now: int, token: Option<string>)
    requires IsUtf8(e.utf8) && AllReadAsThemselves(e.utf8, Parse(e.utf8, award.requestBody))
    requires RequestBody(e, award, now, token).Ok?
    ensures var params, sent :=
        Parse(e.utf8, award.requestBody), Parse(e.utf8, RequestBody(e, award, now, token).value);
      forall name ::
        name in {"ra_chain_payload_hash", "ra_chain_prev_hash", "ra_chain_sig", "ra_chain_pubkey"} ==>
          Only(sent, name)
            == if award.payloadHash == "" then Only(params, name)
               else [Param(name,
                       if name == "ra_chain_payload_hash" then award.payloadHash
                       else if name == "ra_chain_prev_hash" then award.prevHash
                       else if name == "ra_chain_sig" then award.signature else e.publicKey)]
  {
    hide IsUtf8, AllReadAsThemselves, Parse, UpdateAll, Only, Validation, RequestBody, Decimal.ToText, OffsetSeconds;
    RequestParses(e, award, now, token);
    var params := Parse(e.utf8, award.requestBody);
    EditsAreManaged(e, params, award, now, token);
    EditsFound(e, params, award, now, token);
    ChainNames(e, params, award, now, token);
    var edits := Edits(e, params, award, now, token).value;
    UpdateAllMeans(params, edits, "ra_chain_payload_hash", MANAGED);
    UpdateAllMeans(params, edits, "ra_chain_prev_hash", MANAGED);
    UpdateAllMeans(params, edits, "ra_chain_sig", MANAGED);
    UpdateAllMeans(params, edits, "ra_chain_pubkey", MANAGED);
  }

  lemma ChainNames(e: Environment, params: seq<Param>, award: Award, now: int, token: Option<string>)
    requires Edits(e, params, award, now, token).Ok?
    ensures var edits := Edits(e, params, award, now, token).value;
      if award.payloadHash == "" then
        forall i :: 0 <= i < |edits| ==> edits[i].name in {"t", "v", "o"}
      else
        && Param("ra_chain_payload_hash", award.payloadHash) in edits
        && Param("ra_chain_prev_hash", award.prevHash) in edits
        && Param("ra_chain_sig", award.signature) in edits && Param("ra_chain_pubkey", e.publicKey) in edits
  {
    hide Validation, Decimal.ToText, OffsetSeconds;
    EditsFound(e, params, award, now, token);
    if Hashed(award) {
      var chain := ChainEdits(e, award);
      assert chain[0] in chain && chain[1] in chain && chain[2] in chain && chain[3] in chain;
    }
  }
}
