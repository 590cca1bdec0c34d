/**
 The signed list of queued awards (linux/raofflineproxy/flusher.py). SHA-256 and the HMAC are
 parameters; all that is used of them is that a hash is never the empty string.
 */
module AwardChain {
  import opened Bytes

  const GENESIS := "genesis"

  type Hex = s: string | s != "" witness "0"

  datatype Status = Pending | Deleted | Stale | Flushed

  datatype Award = Award(
    id: nat,
    achievementId: int,
    queryString: string,
    requestBody: string,
    userAgent: string,
    queuedAt: int,
    retryCount: nat,
    lastError: Option<string>,
    status: Status,
    payloadHash: string,
    prevHash: string,
    signature: string,
    signedAt: int)

  /** `hash` is SHA-256 over the four fields of the canonical payload, `sign` the HMAC over
      payload hash and previous hash. */
  datatype Signer = Signer(hash: (int, string, string, int) -> Hex, sign: (string, string) -> string)

  datatype Fault = PayloadMismatch | LinkBroken | InvalidSignature

  datatype Verdict = Valid | Broken(fault: Fault, index: nat)

  function PayloadHash(s: Signer, a: Award): Hex {
    s.hash(a.achievementId, a.queryString, a.requestBody, a.queuedAt)
  }

  /** What the next award has to name as its predecessor. */
  function HashOrGenesis(a: Award): string {
    if a.payloadHash == "" then GENESIS else a.payloadHash
  }

  function ExpectedPrev(awards: seq<Award>, i: nat): string
    requires i <= |awards|
  {
    if i == 0 then GENESIS else HashOrGenesis(awards[i - 1])
  }

  predicate Hashed(a: Award) { a.payloadHash != "" }

  /** A row that agrees with itself, wherever it stands. */
  predicate SelfConsistent(s: Signer, a: Award) {
    Hashed(a) ==> a.payloadHash == PayloadHash(s, a) && a.signature == s.sign(a.payloadHash, a.prevHash)
  }

  predicate Linked(awards: seq<Award>, i: nat)
    requires i < |awards|
  {
    Hashed(awards[i]) ==> awards[i].prevHash == ExpectedPrev(awards, i)
  }

  /** Every hashed row agrees with itself and names its predecessor. */
  ghost predicate ChainValid(s: Signer, awards: seq<Award>) {
    forall i :: 0 <= i < |awards| ==> SelfConsistent(s, awards[i]) && Linked(awards, i)
  }

  ghost predicate AllSelfConsistent(s: Signer, awards: seq<Award>) {
    forall i :: 0 <= i < |awards| ==> SelfConsistent(s, awards[i])
  }

  /** The fault reported for a row, checked in this order. */
  function FaultAt(s: Signer, awards: seq<Award>, i: nat): Option<Fault>
    requires i < |awards|
  {
    var a := awards[i];
    if !Hashed(a) then None
    else if a.payloadHash != PayloadHash(s, a) then Some(PayloadMismatch)
    else if a.prevHash != ExpectedPrev(awards, i) then Some(LinkBroken)
    else if a.signature != s.sign(a.payloadHash, a.prevHash) then Some(InvalidSignature)
    else None
  }

  lemma NoFault(s: Signer, awards: seq<Award>, i: nat)
    requires i < |awards|
    ensures FaultAt(s, awards, i).None? <==> SelfConsistent(s, awards[i]) && Linked(awards, i)
    ensures SelfConsistent(s, awards[i]) && FaultAt(s, awards, i).Some? ==> FaultAt(s, awards, i).value == LinkBroken
  {
  }

  /** `verify_chain`: the first fault there is, and only a broken link where rows agree with
      themselves. */
  method VerifyChain(s: Signer, awards: seq<Award>) returns (r: Verdict)
    ensures r.Valid? <==> ChainValid(s, awards)
    ensures r.Broken? ==>
      && r.index < |awards| && FaultAt(s, awards, r.index) == Some(r.fault)
      && forall j :: 0 <= j < r.index ==> FaultAt(s, awards, j).None?
    ensures AllSelfConsistent(s, awards) && r.Broken? ==> r.fault == LinkBroken
  {
    hide SelfConsistent, Linked;
    for i := 0 to |awards|
      invariant forall j :: 0 <= j < i ==> FaultAt(s, awards, j).None?
      invariant forall j :: 0 <= j < i ==> SelfConsistent(s, awards[j]) && Linked(awards, j)
    {
      NoFault(s, awards, i);
      var a := awards[i];
      if Hashed(a) {
        if a.payloadHash != PayloadHash(s, a) {
          return Broken(PayloadMismatch, i);
        }
        var expectedPrev := if i == 0 then GENESIS else HashOrGenesis(awards[i - 1]);
        if a.prevHash != expectedPrev {
          return Broken(LinkBroken, i);
        }
        if a.signature != s.sign(a.payloadHash, a.prevHash) {
          return Broken(InvalidSignature, i);
        }
      }
    }
    r := Valid;
  }

  /** `b` is `a` with nothing but its link, its signature and the time of signing changed. */
  predicate SameButLink(a: Award, b: Award) {
    b == a.(prevHash := b.prevHash, signature := b.signature, signedAt := b.signedAt)
  }

  predicate PayloadsMatch(s: Signer, awards: seq<Award>) {
    forall i :: 0 <= i < |awards| ==> Hashed(awards[i]) ==> awards[i].payloadHash == PayloadHash(s, awards[i])
  }

  ghost predicate Repaired(s: Signer, awards: seq<Award>, repaired: seq<Award>) {
    && |repaired| == |awards|
    && (forall i :: 0 <= i < |awards| ==> SameButLink(awards[i], repaired[i]))
    && (forall i :: 0 <= i < |awards| ==> Hashed(awards[i]) || repaired[i] == awards[i])
    && ChainValid(s, repaired)
  }

  lemma AppendRow(s: Signer, awards: seq<Award>, a: Award)
    requires ChainValid(s, awards)
    requires SelfConsistent(s, a) && (Hashed(a) ==> a.prevHash == ExpectedPrev(awards, |awards|))
    ensures ChainValid(s, awards + [a])
  {
    hide SelfConsistent, HashOrGenesis;
    forall j | 0 <= j < |awards| + 1
      ensures SelfConsistent(s, (awards + [a])[j]) && Linked(awards + [a], j)
    {
      if j < |awards| {
        assert Linked(awards, j);
      }
    }
  }

  /** `repair_pending_chain`; `clock(i)` is the time read while signing row `i`. It fails exactly
      when some payload hash is wrong. */
  method RepairChain(s: Signer, awards: seq<Award>, clock: nat -> int) returns (r: Option<seq<Award>>)
    ensures r.Some? <==> PayloadsMatch(s, awards)
    ensures r.Some? ==> Repaired(s, awards, r.value)
  {
    hide PayloadHash, ChainValid, HashOrGenesis;
    var repaired: seq<Award> := [];
    NothingToRepair(s);
    for i := 0 to |awards|
      invariant Repaired(s, awards[..i], repaired)
      invariant forall j :: 0 <= j < i ==> Hashed(awards[j]) ==> awards[j].payloadHash == PayloadHash(s, awards[j])
    {
      var a := awards[i];
      var b := a;
      if Hashed(a) {
        if a.payloadHash != PayloadHash(s, a) {
          return None;
        }
        var prevHash := if i == 0 then GENESIS else HashOrGenesis(repaired[i - 1]);
        b := a.(prevHash := prevHash, signature := s.sign(a.payloadHash, prevHash), signedAt := clock(i));
        RelinkedIsConsistent(s, a, b);
      }
      AppendRow(s, repaired, b);
      repaired := repaired + [b];
    }
    assert awards[..|awards|] == awards;
    r := Some(repaired);
  }

  lemma NothingToRepair(s: Signer)
    ensures Repaired(s, [], [])
  {
  }

  lemma RelinkedIsConsistent(s: Signer, a: Award, b: Award)
    requires Hashed(a) && a.payloadHash == PayloadHash(s, a)
    requires SameButLink(a, b) && b.signature == s.sign(b.payloadHash, b.prevHash)
    ensures SelfConsistent(s, b)
  {
  }
}
