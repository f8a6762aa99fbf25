/** A concrete, collision-free stand-in for the digest: a self-delimiting text encoding of
    (previous hash, five fields). It shows that what the chain theorems assume can be met. */
module HashEncoding {
  import opened Wrappers
  import opened AuditChain

  /** Each character is announced by '1'; '0' closes the text. */
  function Delimit(s: string): string {
    if s == [] then ['0'] else ['1', s[0]] + Delimit(s[1..])
  }

  /** A sign, then one '1' per unit; '0' closes. */
  function Unary(n: nat): string {
    if n == 0 then ['0'] else ['1'] + Unary(n - 1)
  }

  function Sign(n: Option<int>): char {
    match n
    case None => '?'
    case Some(i) => if i < 0 then '-' else '+'
  }

  function Magnitude(n: Option<int>): string {
    match n
    case None => []
    case Some(i) => Unary(if i < 0 then -i else i)
  }

  function EncodeSeq(n: Option<int>): string {
    [Sign(n)] + Magnitude(n)
  }

  function Encode(prev: string, f: Fields): string {
    EncodeSeq(f.seqNo)
    + (Delimit(prev) + (Delimit(f.ts) + (Delimit(f.username) + (Delimit(f.action) + Delimit(f.detail)))))
  }

  lemma {:induction false} DelimitInjective(s: string, t: string, r: string, q: string)
    requires Delimit(s) + r == Delimit(t) + q
    ensures s == t && r == q
  {
    var left, right := Delimit(s) + r, Delimit(t) + q;
    assert left[0] == right[0];
    if s == [] {
      assert left[1..] == r && right[1..] == q;
    } else {
      assert left[1] == right[1];
      assert left[2..] == Delimit(s[1..]) + r && right[2..] == Delimit(t[1..]) + q;
      DelimitInjective(s[1..], t[1..], r, q);
    }
  }

  lemma {:induction false} UnaryInjective(m: nat, n: nat, r: string, q: string)
    requires Unary(m) + r == Unary(n) + q
    ensures m == n && r == q
  {
    var left, right := Unary(m) + r, Unary(n) + q;
    assert left[0] == right[0];
    if m == 0 {
      assert left[1..] == r && right[1..] == q;
    } else {
      assert left[1..] == Unary(m - 1) + r && right[1..] == Unary(n - 1) + q;
      UnaryInjective(m - 1, n - 1, r, q);
    }
  }

  lemma Peel(c: char, m: string, r: string, e: char, n: string, q: string)
    requires [c] + m + r == [e] + n + q
    ensures c == e && m + r == n + q
  {
    var left, right := [c] + m + r, [e] + n + q;
    assert left[0] == c && right[0] == e;
    assert left[1..] == m + r && right[1..] == n + q;
  }

  lemma EncodeSeqInjective(a: Option<int>, b: Option<int>, r: string, q: string)
    requires EncodeSeq(a) + r == EncodeSeq(b) + q
    ensures a == b && r == q
  {
    Peel(Sign(a), Magnitude(a), r, Sign(b), Magnitude(b), q);
    if a.Some? {
      UnaryInjective(if a.value < 0 then -a.value else a.value, if b.value < 0 then -b.value else b.value, r, q);
    } else {
      assert [] + r == r && [] + q == q;
    }
  }

  lemma EncodeInjective(p: string, f: Fields, q: string, g: Fields)
    requires Encode(p, f) == Encode(q, g)
    ensures p == q && f == g
  {
    var d1, d2 := Delimit(f.detail), Delimit(g.detail);
    var a1, a2 := Delimit(f.action) + d1, Delimit(g.action) + d2;
    var u1, u2 := Delimit(f.username) + a1, Delimit(g.username) + a2;
    var t1, t2 := Delimit(f.ts) + u1, Delimit(g.ts) + u2;
    EncodeSeqInjective(f.seqNo, g.seqNo, Delimit(p) + t1, Delimit(q) + t2);
    DelimitInjective(p, q, t1, t2);
    DelimitInjective(f.ts, g.ts, u1, u2);
    DelimitInjective(f.username, g.username, a1, a2);
    DelimitInjective(f.action, g.action, d1, d2);
    assert d1 + [] == d1 && d2 + [] == d2;
    DelimitInjective(f.detail, g.detail, [], []);
  }

  lemma AssumptionSatisfiable()
    ensures exists h: Hasher :: CollisionFree(h)
  {
    forall p, f, q, g | Encode(p, f) == Encode(q, g)
      ensures p == q && f == g
    {
      EncodeInjective(p, f, q, g);
    }
    forall p, f
      ensures Encode(p, f) != GENESIS
    {
      assert Encode(p, f)[0] == Sign(f.seqNo) != 'G';
    }
    assert CollisionFree(Encode);
  }
}
