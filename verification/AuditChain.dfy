/** The hash chain of the action audit log: how an entry is hashed and what
    `verify_audit_chain` establishes about a list of entries.

    SHA-256 over the canonical JSON text is a parameter `h`. The theorems that
    need it assume `CollisionFree(h)`: distinct inputs have distinct digests and
    no digest is the literal GENESIS. `HashEncoding` shows such a function exists. */
module AuditChain {
  import opened Wrappers

  const GENESIS := "GENESIS"

  /** The five hashed fields. The verifier reads `seq` with `dict.get`, so it may be absent. */
  datatype Fields = Fields(seqNo: Option<int>, ts: string, username: string, action: string, detail: string)

  datatype Entry = Entry(fields: Fields, prevHash: string, hash: string)

  datatype Verdict = Verdict(ok: bool, count: nat, rootHash: string, brokenAt: Option<int>)

  type Hasher = (string, Fields) -> string

  ghost predicate CollisionFree(h: Hasher) {
    && (forall p, f, q, g :: h(p, f) == h(q, g) ==> p == q && f == g)
    && (forall p, f :: h(p, f) != GENESIS)
  }

  // ----- verification of a window of entries

  /** Entry `i` carries its own hash and, unless it opens the window, continues entry `i - 1`. */
  predicate GoodAt(h: Hasher, es: seq<Entry>, i: nat)
    requires i < |es|
  {
    && es[i].hash == h(es[i].prevHash, es[i].fields)
    && (i > 0 ==> es[i].prevHash == es[i - 1].hash)
  }

  ghost predicate Intact(h: Hasher, es: seq<Entry>) {
    forall i :: 0 <= i < |es| ==> GoodAt(h, es, i)
  }

  ghost predicate FirstBroken(h: Hasher, es: seq<Entry>, k: nat) {
    k < |es| && !GoodAt(h, es, k) && forall i :: 0 <= i < k ==> GoodAt(h, es, i)
  }

  function RootHash(es: seq<Entry>): string {
    if es == [] then GENESIS else es[|es| - 1].hash
  }

  /** The first bad entry from `i` on, or the length of the list. */
  function FirstBad(h: Hasher, es: seq<Entry>, i: nat): (k: nat)
    requires i <= |es|
    ensures i <= k <= |es|
    ensures forall j :: i <= j < k ==> GoodAt(h, es, j)
    ensures k < |es| ==> !GoodAt(h, es, k)
    decreases |es| - i
  {
    if i < |es| && GoodAt(h, es, i) then FirstBad(h, es, i + 1) else i
  }

  function VerdictOn(h: Hasher, es: seq<Entry>): (v: Verdict)
    ensures v.count == |es| && v.rootHash == RootHash(es)
    ensures v.ok == v.brokenAt.None?
  {
    var k := FirstBad(h, es, 0);
    var brokenAt := if k == |es| then None else es[k].fields.seqNo;
    Verdict(brokenAt.None?, |es|, RootHash(es), brokenAt)
  }

  method VerifyAuditChain(h: Hasher, entries: seq<Entry>) returns (v: Verdict)
    ensures v == VerdictOn(h, entries)
  {
    var brokenAt: Option<int> := None;
    var prevLink: Option<string> := None;
    var i := 0;
    while i < |entries|
      invariant 0 <= i <= |entries|
      invariant brokenAt == None
      invariant prevLink == if i == 0 then None else Some(entries[i - 1].hash)
      invariant FirstBad(h, entries, 0) == FirstBad(h, entries, i)
    {
      var e := entries[i];
      var recomputed := h(e.prevHash, e.fields);
      if recomputed != e.hash {
        brokenAt := e.fields.seqNo;
        break;
      }
      if prevLink.Some? && e.prevHash != prevLink.value {
        brokenAt := e.fields.seqNo;
        break;
      }
      prevLink := Some(e.hash);
      i := i + 1;
    }
    v := Verdict(brokenAt.None?, |entries|, RootHash(entries), brokenAt);
  }

  /** The verdict counts the entries and names the hash of the last, whatever else it says. */
  lemma VerdictCounts(h: Hasher, es: seq<Entry>, last: Entry)
    ensures VerdictOn(h, es).count == |es|
    ensures VerdictOn(h, []).rootHash == "GENESIS" && VerdictOn(h, es + [last]).rootHash == last.hash
  {
  }

  lemma {:induction false} FirstBadIs(h: Hasher, es: seq<Entry>, i: nat, k: nat)
    requires i <= k && FirstBroken(h, es, k)
    ensures FirstBad(h, es, i) == k
    decreases k - i
  {
    if i < k {
      FirstBadIs(h, es, i + 1, k);
    }
  }

  /** The verdict names the first bad entry by its `seq`. */
  lemma BrokenAtFirst(h: Hasher, es: seq<Entry>, k: nat)
    requires FirstBroken(h, es, k)
    ensures VerdictOn(h, es).brokenAt == es[k].fields.seqNo
  {
    FirstBadIs(h, es, 0, k);
  }

  /** `ok` is exactly "every entry is good, or the first bad one carries no `seq`". */
  lemma VerdictExact(h: Hasher, es: seq<Entry>)
    ensures VerdictOn(h, es).ok
            <==> Intact(h, es) || exists k: nat :: FirstBroken(h, es, k) && es[k].fields.seqNo == None
  {
    if FirstBad(h, es, 0) < |es| {
      assert FirstBroken(h, es, FirstBad(h, es, 0));
    }
  }

  ghost predicate AllNumbered(es: seq<Entry>) {
    forall i :: 0 <= i < |es| ==> es[i].fields.seqNo.Some?
  }

  /** On entries that all carry `seq`, as logged ones do, `ok` is integrity. */
  lemma NumberedVerdict(h: Hasher, es: seq<Entry>)
    requires AllNumbered(es)
    ensures VerdictOn(h, es).ok <==> Intact(h, es)
  {
    VerdictExact(h, es);
  }

  /** Without `seq` the promise fails: an entry whose hash is wrong is reported as ok. */
  lemma UnnumberedTamperingPasses(h: Hasher, f: Fields, prev: string)
    requires f.seqNo == None
    ensures var es := [Entry(f, prev, h(prev, f) + "!")]; VerdictOn(h, es).ok && !Intact(h, es)
  {
    var es := [Entry(f, prev, h(prev, f) + "!")];
    assert |es[0].hash| == |h(prev, f)| + 1;
    assert !GoodAt(h, es, 0);
    assert FirstBroken(h, es, 0);
  }

  // ----- chains written by the logger

  /** The link that opens a chain: GENESIS, or the digest of an entry with a smaller number. */
  ghost predicate Rooted(h: Hasher, e: Entry) {
    || e.prevHash == GENESIS
    || exists p, f :: e.prevHash == h(p, f) && Precedes(f.seqNo, e.fields.seqNo)
  }

  predicate Precedes(a: Option<int>, b: Option<int>) {
    a.Some? && b.Some? && a.value < b.value
  }

  /** Consecutive numbers, each entry hashed over its predecessor's hash. */
  ghost predicate LoggerChain(h: Hasher, es: seq<Entry>) {
    && Intact(h, es)
    && AllNumbered(es)
    && (forall i :: 0 <= i < |es| ==> es[i].fields.seqNo == Some(es[0].fields.seqNo.value + i))
    && (es != [] ==> Rooted(h, es[0]))
  }

  function Pick(es: seq<Entry>, at: seq<nat>): seq<Entry>
    requires forall k :: 0 <= k < |at| ==> at[k] < |es|
  {
    seq(|at|, k requires 0 <= k < |at| => es[at[k]])
  }

  ghost predicate Consecutive(at: seq<nat>) {
    forall k :: 0 <= k < |at| - 1 ==> at[k + 1] == at[k] + 1
  }

  /** Inside a chain, one entry links to another exactly when it is its successor. */
  lemma LinksToPredecessorOnly(h: Hasher, es: seq<Entry>, a: nat, b: nat)
    requires CollisionFree(h) && LoggerChain(h, es) && a < |es| && b < |es|
    ensures es[b].prevHash == es[a].hash <==> b == a + 1
  {
    assert GoodAt(h, es, a) && GoodAt(h, es, b);
    if b > 0 {
      assert GoodAt(h, es, b - 1);
      assert es[b - 1].fields.seqNo == Some(es[0].fields.seqNo.value + b - 1);
    }
    assert es[a].fields.seqNo == Some(es[0].fields.seqNo.value + a);
  }

  lemma PickedEntryGood(h: Hasher, es: seq<Entry>, at: seq<nat>, k: nat)
    requires CollisionFree(h) && LoggerChain(h, es)
    requires forall k :: 0 <= k < |at| ==> at[k] < |es|
    requires k < |at|
    ensures GoodAt(h, Pick(es, at), k) <==> k == 0 || at[k] == at[k - 1] + 1
  {
    assert GoodAt(h, es, at[k]);
    if k > 0 {
      LinksToPredecessorOnly(h, es, at[k - 1], at[k]);
    }
  }

  /** Entries picked from a chain by index, with gaps, repeats and in any order, verify
      exactly when the indices are consecutive: only a prefix or suffix can go unnoticed. */
  lemma PickVerifiesIffConsecutive(h: Hasher, es: seq<Entry>, at: seq<nat>)
    requires CollisionFree(h) && LoggerChain(h, es)
    requires forall k :: 0 <= k < |at| ==> at[k] < |es|
    ensures VerdictOn(h, Pick(es, at)).ok <==> Consecutive(at)
  {
    NumberedVerdict(h, Pick(es, at));
    PickIntactIffConsecutive(h, es, at);
  }

  lemma PickIntactIffConsecutive(h: Hasher, es: seq<Entry>, at: seq<nat>)
    requires CollisionFree(h) && LoggerChain(h, es)
    requires forall k :: 0 <= k < |at| ==> at[k] < |es|
    ensures Intact(h, Pick(es, at)) <==> Consecutive(at)
  {
    if Consecutive(at) {
      forall k: nat | k < |at|
        ensures GoodAt(h, Pick(es, at), k)
      {
        PickedEntryGood(h, es, at, k);
        assert k > 0 ==> at[(k - 1) + 1] == at[k - 1] + 1;
      }
    } else {
      var k: nat :| k < |at| - 1 && at[k + 1] != at[k] + 1;
      PickedEntryGood(h, es, at, k + 1);
    }
  }

  /** The root hash commits to everything before it: two lists of numbered entries that
      both verify with the same root agree backwards, so the shorter is a suffix of the longer. */
  lemma RootHashCommits(h: Hasher, a: seq<Entry>, b: seq<Entry>)
    requires CollisionFree(h) && AllNumbered(a) && AllNumbered(b)
    requires VerdictOn(h, a).ok && VerdictOn(h, b).ok
    requires VerdictOn(h, a).rootHash == VerdictOn(h, b).rootHash && |b| <= |a|
    ensures b == a[|a| - |b|..]
  {
    NumberedVerdict(h, a);
    NumberedVerdict(h, b);
    IntactCommits(h, a, b);
  }

  lemma IntactCommits(h: Hasher, a: seq<Entry>, b: seq<Entry>)
    requires CollisionFree(h) && Intact(h, a) && Intact(h, b) && RootHash(a) == RootHash(b) && |b| <= |a|
    ensures b == a[|a| - |b|..]
  {
    forall i | 0 <= i < |b|
      ensures b[i] == a[|a| - |b| + i]
    {
      AgreeBackwards(h, a, b, |b| - 1 - i);
    }
  }

  lemma {:induction false} AgreeBackwards(h: Hasher, a: seq<Entry>, b: seq<Entry>, k: nat)
    requires CollisionFree(h) && Intact(h, a) && Intact(h, b)
    requires RootHash(a) == RootHash(b) && k < |a| && k < |b|
    ensures a[|a| - 1 - k] == b[|b| - 1 - k]
    decreases k
  {
    if k > 0 {
      AgreeBackwards(h, a, b, k - 1);
      assert GoodAt(h, a, |a| - k) && GoodAt(h, b, |b| - k);
    }
    assert GoodAt(h, a, |a| - 1 - k) && GoodAt(h, b, |b| - 1 - k);
  }
}
