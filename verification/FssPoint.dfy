/** Keys and shares of the two-party point function, and what the shares add up to. */
module FssPoint {
  import opened Words
  import opened Field
  import opened FssTree

  type Draws = nat -> Draw

  // ---------- conversion of a final seed into field words ----------

  /** Four words a PRF block; the last n mod 4 words stay zero. */
  function ConvertBytes(c: Cipher, seed: Block, n: nat): (r: seq<byte>)
    ensures |r| == 4 * n
  {
    Stream(c, seed, n / 4) + Zeros(4 * (n % 4))
  }

  function Convert(c: Cipher, seed: Block, n: nat, draws: Draws): (r: seq<u32>)
    ensures |r| == n
  {
    Elements(ConvertBytes(c, seed, n), n, draws)
  }

  /** Word i of a conversion comes from bytes 4 i to 4 i + 3 of the stream of all ciphers, and a word that was
      redrawn from the i-th draw. */
  lemma ConvertedFrom(c: Cipher, seed: Block, n: nat, draws: Draws, i: nat)
    requires i < Unmasked(n)
    ensures var word := Xor(c(i / 4, seed), seed)[4 * (i % 4)..4 * (i % 4) + 4];
            Convert(c, seed, n, draws)[i] == Element(word, draws(i))
  {
    hide Element, Stream;
    var word, bytes := Xor(c(i / 4, seed), seed)[4 * (i % 4)..4 * (i % 4) + 4], ConvertBytes(c, seed, n);
    assert 16 * (i / 4) + 4 * (i % 4) == 4 * i;
    forall k | 0 <= k < 4 ensures WordAt(bytes, 4 * i)[k] == word[k] {
      StreamAt(c, seed, n / 4, i / 4, 4 * (i % 4) + k);
    }
    assert WordAt(bytes, 4 * i) == word;
  }

  /** No converted word equals the modulus, so nothing is resampled. */
  predicate NoHit(c: Cipher, seed: Block, n: nat) {
    forall i :: 0 <= i < n ==> MaskedWord(WordAt(ConvertBytes(c, seed, n), 4 * i)) != MOD_P
  }

  // ---------- final correction word and output share ----------

  function FinalValue(b: u32, m0: u32, m1: u32): u32 {
    Norm(Add(Norm(Add(b, Sub(MOD_P, m0))), m1))
  }

  function FinalWord(b: u32, m0: u32, m1: u32, t1: Bit): u32 {
    var v := FinalValue(b, m0, m1);
    if t1 == 1 then Sub(MOD_P, v) else v
  }

  /** The word product of a control bit and a final correction word. */
  function Gated(t: Bit, f: u32): u32 {
    if t == 1 then f else 0
  }

  lemma GatedIsProduct(t: Bit, f: u32)
    ensures Gated(t, f) == Mul(t as int, f)
  {
    if t == 1 {
      WrapSmall(f);
      assert t as int * f == f;
    } else {
      assert t as int * f == 0;
    }
  }

  function Share(server: byte, w: u32, t: Bit, f: u32): (r: u32)
    ensures r <= MOD_P
  {
    var v := Norm(Add(w, Gated(t, f)));
    WrapSmall(MOD_P - v);
    if server == 0 then v else Sub(MOD_P, v)
  }

  function FinalWords(b: seq<u32>, m0: seq<u32>, m1: seq<u32>, t1: Bit): (r: seq<u32>)
    requires |m0| == |m1| == |b|
    ensures |r| == |b|
  {
    seq(|b|, j requires 0 <= j < |b| => FinalWord(b[j], m0[j], m1[j], t1))
  }

  function Shares(server: byte, w: seq<u32>, t: Bit, f: seq<u32>): (r: seq<u32>)
    requires |w| <= |f|
    ensures |r| == |w|
    ensures forall j :: 0 <= j < |r| ==> r[j] <= MOD_P
  {
    seq(|w|, j requires 0 <= j < |w| => Share(server, w[j], t, f[j]))
  }

  /** The converted words of one position: the client's two and the servers' two. */
  datatype Quad = Quad(m0: u32, m1: u32, w0: u32, w1: u32) {
    /** The words that matter are field elements; off the target path the client's do not. */
    predicate Canonical(hit: bool) {
      w0 < MOD_P && w1 < MOD_P && (hit ==> m0 < MOD_P && m1 < MOD_P)
    }
  }

  /** The sum of two shares: zero off the target path, b on it, up to conversion mismatch. */
  function Expected(b: u32, v: Quad, hit: bool): u32 {
    Norm((if hit then b - v.m0 + v.m1 else 0) + v.w0 - v.w1)
  }

  /** The two servers' shares of one word, added as the client adds them. */
  function ShareSum(v: Quad, t0: Bit, t1: Bit, f: u32): u32 {
    Norm(Add(Share(0, v.w0, t0, f), Share(1, v.w1, t1, f)))
  }

  // ---------- key generation and evaluation ----------

  function FinalCorrection(c: Cipher, p: Pair, a: seq<bool>, b: seq<u32>, g0: Draws, g1: Draws): (r: seq<u32>)
    ensures |r| == |b|
  {
    var q := Walk(c, p, a);
    FinalWords(b, Convert(c, q.n0.seed, |b|, g0), Convert(c, q.n1.seed, |b|, g1), q.n1.bit)
  }

  /** The key built from one party's root node. */
  function KeyOf(c: Cipher, p: Pair, n: Node, a: seq<bool>, b: seq<u32>, g0: Draws, g1: Draws): (k: Key)
    ensures |k.cw| == |a| && WordsOk(k.cw) && |k.finalCW| == |b|
  {
    Key(n.seed, n.bit, CorrectionWords(c, p, a), FinalCorrection(c, p, a, b, g0, g1))
  }

  /** What a key must have for an evaluation on m bits into n words not to run off its slices. */
  predicate Fits(k: Key, m: nat, n: nat) {
    m <= |k.cw| && WordsOk(k.cw) && n <= |k.finalCW|
  }

  function Leaf(c: Cipher, k: Key, x: seq<bool>): Node
    requires |x| <= |k.cw| && WordsOk(k.cw)
  {
    Path(c, Node(k.sInit, k.tInit), k.cw[..|x|], Seen(x))
  }

  function Eval(c: Cipher, server: byte, k: Key, x: seq<bool>, n: nat, e: Draws): (r: seq<u32>)
    requires Fits(k, |x|, n)
    ensures |r| == n
    ensures forall j :: 0 <= j < |r| ==> r[j] <= MOD_P
  {
    var s := Leaf(c, k, x);
    Shares(server, Convert(c, s.seed, n, e), s.bit, k.finalCW)
  }

  // ---------- arithmetic of the shares ----------

  lemma FinalValueExact(b: u32, m0: u32, m1: u32)
    requires b < MOD_P && m0 < MOD_P && m1 < MOD_P
    ensures FinalValue(b, m0, m1) == Norm(b - m0 + m1)
  {
    hide Norm, Wrap;
    WrapSmall(MOD_P - m0);
    WrapSmall(b + (MOD_P - m0));
    var u := Norm(b + (MOD_P - m0));
    WrapSmall(u + m1);
    NormAdd(b + (MOD_P - m0), m1);
    NormShift(b - m0 + m1);
  }

  /** With canonical inputs no 32-bit operation of the final word wraps. */
  lemma FinalWordExact(b: u32, m0: u32, m1: u32, t1: Bit)
    requires b < MOD_P && m0 < MOD_P && m1 < MOD_P
    ensures FinalWord(b, m0, m1, t1) == if t1 == 1 then MOD_P - Norm(b - m0 + m1) else Norm(b - m0 + m1)
  {
    hide Norm, Wrap, FinalValue;
    FinalValueExact(b, m0, m1);
    WrapSmall(MOD_P - FinalValue(b, m0, m1));
  }

  /** Whatever the conversions gave, the final word is at most the modulus. */
  lemma FinalWordBound(b: u32, m0: u32, m1: u32, t1: Bit)
    ensures FinalWord(b, m0, m1, t1) <= MOD_P
  {
    WrapSmall(MOD_P - FinalValue(b, m0, m1));
  }

  /** With a canonical word no 32-bit operation of a share wraps; server 1's share is 1..MOD_P. */
  lemma ShareExact(server: byte, w: u32, t: Bit, f: u32)
    requires w < MOD_P && f <= MOD_P
    ensures Share(server, w, t, f)
         == if server == 0 then Norm(w + Gated(t, f)) else MOD_P - Norm(w + Gated(t, f))
    ensures if server == 0 then Share(server, w, t, f) < MOD_P else 1 <= Share(server, w, t, f) <= MOD_P
  {
    hide Norm, Wrap;
    var v := Gated(t, f);
    WrapSmall(w + v);
    WrapSmall(MOD_P - Norm(w + v));
  }

  /** A canonical share and a negated one: no wrap, and the difference in the field. */
  lemma ShareDifference(x: int, y: int)
    ensures 1 <= MOD_P - Norm(y) && Norm(Add(Norm(x), MOD_P - Norm(y))) == Norm(x - y)
  {
    hide Norm, Wrap;
    var u: int, v: int := Norm(x), Norm(y);
    WrapSmall(u + (MOD_P - v));
    NormShift(u - v);
    NormAdd(x, -v);
    NormSub(y, x);
  }

  lemma ShareSumExact(v: Quad, t0: Bit, t1: Bit, f: u32)
    requires v.Canonical(false) && f <= MOD_P
    ensures ShareSum(v, t0, t1, f) == Norm((v.w0 + Gated(t0, f)) - (v.w1 + Gated(t1, f)))
  {
    hide Norm, Wrap, Share, Gated;
    ShareExact(0, v.w0, t0, f);
    ShareExact(1, v.w1, t1, f);
    ShareDifference(v.w0 + Gated(t0, f), v.w1 + Gated(t1, f));
  }

  /** The shares of two parties at the same node differ only by their converted words. */
  lemma SameNodeShares(b: u32, v: Quad, t: Bit, f: u32)
    requires v.Canonical(false) && f <= MOD_P
    ensures ShareSum(v, t, t, f) == Expected(b, v, false)
  {
    ShareSumExact(v, t, t, f);
    assert v.w0 + Gated(t, f) - (v.w1 + Gated(t, f)) == 0 + v.w0 - v.w1;
  }

  lemma CorrectedDifference(d: int, w0: int, w1: int, t0: Bit, t1: Bit, f: u32)
    requires t0 != t1 && f == if t1 == 1 then MOD_P - Norm(d) else Norm(d)
    ensures Norm((w0 + Gated(t0, f)) - (w1 + Gated(t1, f))) == Norm(d + w0 - w1)
  {
    NormAdd(d, w0 - w1);
    NormShift(w0 - w1 + Norm(d) - MOD_P);
  }

  /** Adding the shares of two opposed parties leaves b corrected by the conversion mismatch. */
  lemma OpposedShares(b: u32, v: Quad, t0: Bit, t1: Bit)
    requires b < MOD_P && v.Canonical(true)
    requires t0 != t1
    ensures ShareSum(v, t0, t1, FinalWord(b, v.m0, v.m1, t1)) == Expected(b, v, true)
  {
    var d := b - v.m0 + v.m1;
    FinalWordExact(b, v.m0, v.m1, t1);
    OpposedAt(b, v, t0, t1, d, FinalWord(b, v.m0, v.m1, t1));
  }

  lemma OpposedAt(b: u32, v: Quad, t0: Bit, t1: Bit, d: int, f: u32)
    requires v.Canonical(true) && t0 != t1 && f <= MOD_P
    requires d == b - v.m0 + v.m1 && f == if t1 == 1 then MOD_P - Norm(d) else Norm(d)
    ensures ShareSum(v, t0, t1, f) == Expected(b, v, true)
  {
    ShareSumExact(v, t0, t1, f);
    CorrectedDifference(d, v.w0, v.w1, t0, t1, f);
  }

  // ---------- the point function ----------

  /** Nothing is resampled where it matters for input x: the two final seeds of the key
      generation on the target path, the servers' common final seed elsewhere. */
  predicate CleanAt(c: Cipher, p: Pair, a: seq<bool>, x: seq<bool>, n: nat)
    requires |x| == |a|
  {
    var q := Walk(c, p, a);
    if Seen(x) == a then NoHit(c, q.n0.seed, n) && NoHit(c, q.n1.seed, n)
    else NoHit(c, Follow(c, p, p.n0, a, Seen(x)).seed, n)
  }

  /** The words redrawn by the client's two conversions and by the two servers' conversions. */
  datatype Coins = Coins(g0: Draws, g1: Draws, e0: Draws, e1: Draws)

  function AddWords(y0: seq<u32>, y1: seq<u32>): (r: seq<u32>)
    requires |y0| == |y1|
    ensures |r| == |y0|
    ensures forall j :: 0 <= j < |r| ==> r[j] == Norm(Add(y0[j], y1[j]))
  {
    seq(|y0|, j requires 0 <= j < |y0| => Norm(Add(y0[j], y1[j])))
  }

  /** The two servers' outputs on x, added word by word as the client adds them. */
  function Sums(c: Cipher, p: Pair, a: seq<bool>, b: seq<u32>, x: seq<bool>, r: Coins): (s: seq<u32>)
    requires |x| == |a|
    ensures |s| == |b|
  {
    AddWords(Eval(c, 0, KeyOf(c, p, p.n0, a, b, r.g0, r.g1), x, |b|, r.e0),
             Eval(c, 1, KeyOf(c, p, p.n1, a, b, r.g0, r.g1), x, |b|, r.e1))
  }

  /** The value the two shares must add up to. */
  function PointValue(b: seq<u32>, hit: bool): (r: seq<u32>)
    ensures |r| == |b|
    ensures forall j :: 0 <= j < |b| ==> r[j] == if hit then b[j] else 0
  {
    seq(|b|, j requires 0 <= j < |b| => if hit then b[j] else 0)
  }

  predicate Canonical(b: seq<u32>) {
    forall j :: 0 <= j < |b| ==> b[j] < MOD_P
  }

  /** One word of a server's output on a generated key, by the node the server reaches. */
  lemma EvalAt(c: Cipher, server: byte, p: Pair, n: Node, a: seq<bool>, b: seq<u32>, x: seq<bool>,
               g0: Draws, g1: Draws, e: Draws, j: nat)
    requires |x| == |a| && j < |b|
    ensures var s, f := Follow(c, p, n, a, Seen(x)), FinalCorrection(c, p, a, b, g0, g1)[j];
            Eval(c, server, KeyOf(c, p, n, a, b, g0, g1), x, |b|, e)[j]
            == Share(server, Convert(c, s.seed, |b|, e)[j], s.bit, f)
  {
    var k := KeyOf(c, p, n, a, b, g0, g1);
    assert k.cw[..|x|] == CorrectionWords(c, p, a);
  }

  function Converted(c: Cipher, p: Pair, a: seq<bool>, n: nat, x: seq<bool>, r: Coins, j: nat): Quad
    requires |x| == |a| && j < n
  {
    var q := Walk(c, p, a);
    Quad(Convert(c, q.n0.seed, n, r.g0)[j], Convert(c, q.n1.seed, n, r.g1)[j],
         Convert(c, Follow(c, p, p.n0, a, Seen(x)).seed, n, r.e0)[j],
         Convert(c, Follow(c, p, p.n1, a, Seen(x)).seed, n, r.e1)[j])
  }

  /** What the two shares of one word add up to, resampled or not, while all words are canonical. */
  lemma SumAt(c: Cipher, p: Pair, a: seq<bool>, b: seq<u32>, x: seq<bool>, r: Coins, j: nat)
    requires Opposed(p) && |x| == |a| && j < |b| && b[j] < MOD_P
    requires Converted(c, p, a, |b|, x, r, j).Canonical(Seen(x) == a)
    ensures Sums(c, p, a, b, x, r)[j] == Expected(b[j], Converted(c, p, a, |b|, x, r, j), Seen(x) == a)
  {
    var t0, t1 := Follow(c, p, p.n0, a, Seen(x)).bit, Follow(c, p, p.n1, a, Seen(x)).bit;
    SumOfShares(c, p, a, b, x, r, j);
    ReachedBits(c, p, a, Seen(x));
    ShareSums(b[j], Converted(c, p, a, |b|, x, r, j), t0, t1, Walk(c, p, a).n1.bit, Seen(x) == a);
  }

  lemma SumOfShares(c: Cipher, p: Pair, a: seq<bool>, b: seq<u32>, x: seq<bool>, r: Coins, j: nat)
    requires |x| == |a| && j < |b|
    ensures var v := Converted(c, p, a, |b|, x, r, j);
            var t0, t1 := Follow(c, p, p.n0, a, Seen(x)).bit, Follow(c, p, p.n1, a, Seen(x)).bit;
            var f := FinalWord(b[j], v.m0, v.m1, Walk(c, p, a).n1.bit);
            Sums(c, p, a, b, x, r)[j] == ShareSum(v, t0, t1, f)
  {
    EvalAt(c, 0, p, p.n0, a, b, x, r.g0, r.g1, r.e0, j);
    EvalAt(c, 1, p, p.n1, a, b, x, r.g0, r.g1, r.e1, j);
  }

  /** The control bits the servers end with: the client's on the target path, equal off it. */
  lemma ReachedBits(c: Cipher, p: Pair, a: seq<bool>, x: seq<bool>)
    requires Opposed(p) && |x| == |a|
    ensures var t0, t1 := Follow(c, p, p.n0, a, x).bit, Follow(c, p, p.n1, a, x).bit;
            if x == a then t0 != t1 && t1 == Walk(c, p, a).n1.bit else t0 == t1
  {
    LevelInvariant(c, p, a, x);
  }

  lemma ShareSums(b: u32, v: Quad, t0: Bit, t1: Bit, last: Bit, hit: bool)
    requires b < MOD_P && v.Canonical(hit)
    requires if hit then t0 != t1 && t1 == last else t0 == t1
    ensures ShareSum(v, t0, t1, FinalWord(b, v.m0, v.m1, last)) == Expected(b, v, hit)
  {
    if hit {
      OpposedShares(b, v, t0, t1);
    } else {
      FinalWordBound(b, v.m0, v.m1, last);
      SameNodeShares(b, v, t0, FinalWord(b, v.m0, v.m1, last));
    }
  }

  lemma CleanWord(c: Cipher, seed: Block, n: nat, d: Draws, j: nat)
    requires j < n
    ensures var w := MaskedWord(WordAt(ConvertBytes(c, seed, n), 4 * j));
            Convert(c, seed, n, d)[j] == if w != MOD_P then w else d(j)
  {
    var bytes := ConvertBytes(c, seed, n);
    assert Elements(bytes, n, d)[j] == Element(WordAt(bytes, 4 * j), d(j));
  }

  /** Correctness of the point function at every input length: the shares add up to b exactly
      when the input, as the servers read it, is the target, and to zero otherwise. */
  lemma PointFunction(c: Cipher, p: Pair, a: seq<bool>, b: seq<u32>, x: seq<bool>, r: Coins)
    requires Opposed(p) && |x| == |a| && Canonical(b)
    requires CleanAt(c, p, a, x, |b|)
    ensures Sums(c, p, a, b, x, r) == PointValue(b, Seen(x) == a)
  {
    forall j | 0 <= j < |b| ensures Sums(c, p, a, b, x, r)[j] == PointValue(b, Seen(x) == a)[j] {
      PointWord(c, p, a, b, x, r, j);
    }
  }

  lemma PointWord(c: Cipher, p: Pair, a: seq<bool>, b: seq<u32>, x: seq<bool>, r: Coins, j: nat)
    requires Opposed(p) && |x| == |a| && j < |b| && b[j] < MOD_P
    requires CleanAt(c, p, a, x, |b|)
    ensures Sums(c, p, a, b, x, r)[j] == if Seen(x) == a then b[j] else 0
  {
    CleanQuad(c, p, a, |b|, x, r, j);
    SumAt(c, p, a, b, x, r, j);
    ExpectedClean(b[j], Converted(c, p, a, |b|, x, r, j), Seen(x) == a);
  }

  /** The same for the two shares themselves, whose plain sum does not wrap. */
  lemma PointShares(c: Cipher, p: Pair, a: seq<bool>, b: seq<u32>, x: seq<bool>, r: Coins, j: nat)
    requires Opposed(p) && |x| == |a| && j < |b| && b[j] < MOD_P
    requires CleanAt(c, p, a, x, |b|)
    ensures var y0 := Eval(c, 0, KeyOf(c, p, p.n0, a, b, r.g0, r.g1), x, |b|, r.e0)[j];
            var y1 := Eval(c, 1, KeyOf(c, p, p.n1, a, b, r.g0, r.g1), x, |b|, r.e1)[j];
            y0 <= MOD_P && y1 <= MOD_P && Norm(y0 + y1) == if Seen(x) == a then b[j] else 0
  {
    hide Eval, KeyOf, CleanAt, Norm;
    PointWord(c, p, a, b, x, r, j);
    var y0 := Eval(c, 0, KeyOf(c, p, p.n0, a, b, r.g0, r.g1), x, |b|, r.e0)[j];
    var y1 := Eval(c, 1, KeyOf(c, p, p.n1, a, b, r.g0, r.g1), x, |b|, r.e1)[j];
    WrapSmall(y0 + y1);
  }

  lemma ExpectedClean(b: u32, v: Quad, hit: bool)
    requires b < MOD_P
    requires if hit then v.w0 == v.m0 && v.w1 == v.m1 else v.w0 == v.w1
    ensures Expected(b, v, hit) == if hit then b else 0
  {
    NormSmall(b);
  }

  /** One redrawn word that differs by one from its counterpart spoils the sum. */
  lemma ExpectedOff(b: u32, v: Quad, hit: bool)
    requires b < MOD_P
    requires if hit then (v.w0 - v.m0) - (v.w1 - v.m1) in {1, -1} else v.w0 - v.w1 == 1
    ensures Expected(b, v, hit) != if hit then b else 0
  {
  }

  /** Without resampling the servers convert what the client converted, and both the same. */
  lemma CleanQuad(c: Cipher, p: Pair, a: seq<bool>, n: nat, x: seq<bool>, r: Coins, j: nat)
    requires Opposed(p) && |x| == |a| && j < n && CleanAt(c, p, a, x, n)
    ensures var v := Converted(c, p, a, n, x, r, j);
            && v.Canonical(Seen(x) == a)
            && if Seen(x) == a then v.w0 == v.m0 && v.w1 == v.m1 else v.w0 == v.w1
  {
    LevelInvariant(c, p, a, Seen(x));
    var q := Walk(c, p, a);
    var s0, s1 := Follow(c, p, p.n0, a, Seen(x)), Follow(c, p, p.n1, a, Seen(x));
    CleanWord(c, q.n0.seed, n, r.g0, j);
    CleanWord(c, q.n1.seed, n, r.g1, j);
    CleanWord(c, s0.seed, n, r.e0, j);
    CleanWord(c, s1.seed, n, r.e1, j);
  }

  /** The shares are right whatever is redrawn if and only if nothing is redrawn: both parties
      redraw on their own, so one hit already lets them disagree. */
  lemma ResamplingExact(c: Cipher, p: Pair, a: seq<bool>, b: seq<u32>, x: seq<bool>)
    requires Opposed(p) && |x| == |a| && Canonical(b)
    ensures (forall r: Coins :: Sums(c, p, a, b, x, r) == PointValue(b, Seen(x) == a))
       <==> CleanAt(c, p, a, x, |b|)
  {
    if CleanAt(c, p, a, x, |b|) {
      forall r: Coins ensures Sums(c, p, a, b, x, r) == PointValue(b, Seen(x) == a) {
        PointFunction(c, p, a, b, x, r);
      }
    } else {
      var r := BadCoins(c, p, a, b, x);
    }
  }

  /** One server redraws a 1, everybody else a 0; `second` says which server. */
  function UnequalCoins(second: bool): Coins {
    var zero: Draws, one: Draws := _ => 0, _ => 1;
    if second then Coins(zero, zero, zero, one) else Coins(zero, zero, one, zero)
  }

  /** The seed that server converts on input x. */
  function FinalSeed(c: Cipher, p: Pair, a: seq<bool>, x: seq<bool>, second: bool): Block
    requires |x| == |a|
  {
    Follow(c, p, if second then p.n1 else p.n0, a, Seen(x)).seed
  }

  lemma HitQuad(c: Cipher, p: Pair, a: seq<bool>, n: nat, x: seq<bool>, j: nat, second: bool)
    requires Opposed(p) && |x| == |a| && j < n
    requires MaskedWord(WordAt(ConvertBytes(c, FinalSeed(c, p, a, x, second), n), 4 * j)) == MOD_P
    requires second ==> Seen(x) == a
    ensures var v := Converted(c, p, a, n, x, UnequalCoins(second), j);
            && v.Canonical(Seen(x) == a)
            && if Seen(x) == a then (v.w0 - v.m0) - (v.w1 - v.m1) in {1, -1} else v.w0 - v.w1 == 1
  {
    LevelInvariant(c, p, a, Seen(x));
    var q, r := Walk(c, p, a), UnequalCoins(second);
    CleanWord(c, q.n0.seed, n, r.g0, j);
    CleanWord(c, q.n1.seed, n, r.g1, j);
    CleanWord(c, FinalSeed(c, p, a, x, false), n, r.e0, j);
    CleanWord(c, FinalSeed(c, p, a, x, true), n, r.e1, j);
  }

  /** Redrawn words for which the shares are wrong, when some word is redrawn. */
  lemma BadCoins(c: Cipher, p: Pair, a: seq<bool>, b: seq<u32>, x: seq<bool>) returns (r: Coins)
    requires Opposed(p) && |x| == |a| && Canonical(b)
    requires !CleanAt(c, p, a, x, |b|)
    ensures Sums(c, p, a, b, x, r) != PointValue(b, Seen(x) == a)
  {
    LevelInvariant(c, p, a, Seen(x));
    var hit := Seen(x) == a;
    var second := hit && NoHit(c, Walk(c, p, a).n0.seed, |b|);
    var seed := FinalSeed(c, p, a, x, second);
    assert !NoHit(c, seed, |b|);
    var j: nat :| j < |b| && MaskedWord(WordAt(ConvertBytes(c, seed, |b|), 4 * j)) == MOD_P;
    r := UnequalCoins(second);
    HitQuad(c, p, a, |b|, x, j, second);
    SumAt(c, p, a, b, x, r, j);
    ExpectedOff(b[j], Converted(c, p, a, |b|, x, r, j), hit);
    assert Sums(c, p, a, b, x, r)[j] != PointValue(b, hit)[j];
  }

  lemma SeenShort(x: seq<bool>)
    requires |x| <= MAX_BITS
    ensures Seen(x) == x
  {
  }

  /** A longer target has an input of its length that the servers take for another one. */
  lemma SeenLong(a: seq<bool>) returns (x: seq<bool>)
    requires |a| > MAX_BITS
    ensures |x| == |a| && (Seen(x) == a) != (x == a)
  {
    x := if a[MAX_BITS] then a else a[MAX_BITS := true];
    if !a[MAX_BITS] {
      assert Seen(x) == Seen(a);
    }
  }

  lemma PointAt(c: Cipher, p: Pair, a: seq<bool>, b: seq<u32>, x: seq<bool>, r: Coins, j: nat)
    requires Opposed(p) && |x| == |a| && Canonical(b) && j < |b| && b[j] != 0
    requires CleanAt(c, p, a, x, |b|)
    ensures Sums(c, p, a, b, x, r) == PointValue(b, x == a) <==> (Seen(x) == a <==> x == a)
  {
    PointFunction(c, p, a, b, x, r);
    assert PointValue(b, true)[j] != PointValue(b, false)[j];
  }

  /** For a non-zero value the shares form the point function of a on all inputs of its length
      if and only if that length is at most 256 bits. */
  lemma PointFunctionExact(c: Cipher, p: Pair, a: seq<bool>, b: seq<u32>, r: Coins, j: nat)
    requires Opposed(p) && Canonical(b) && j < |b| && b[j] != 0
    requires forall x: seq<bool> | |x| == |a| :: CleanAt(c, p, a, x, |b|)
    ensures (forall x: seq<bool> | |x| == |a| :: Sums(c, p, a, b, x, r) == PointValue(b, x == a))
       <==> |a| <= MAX_BITS
  {
    hide Sums, CleanAt, Canonical;
    if |a| <= MAX_BITS {
      forall x: seq<bool> | |x| == |a| ensures Sums(c, p, a, b, x, r) == PointValue(b, x == a) {
        SeenShort(x);
        PointAt(c, p, a, b, x, r, j);
      }
    } else {
      var x := SeenLong(a);
      PointAt(c, p, a, b, x, r, j);
    }
  }

  // ---------- what a key shows of the values ----------

  /** The last |b| mod 4 words are converted from zero bytes. */
  lemma ZeroWord(c: Cipher, seed: Block, n: nat, d: Draws, j: nat)
    requires Unmasked(n) <= j < n
    ensures Convert(c, seed, n, d)[j] == 0
  {
    CleanWord(c, seed, n, d, j);
    hide Stream, MaskedWord;
    var bytes := ConvertBytes(c, seed, n);
    assert WordAt(bytes, 4 * j) == Zeros(4);
    ZeroMasked();
  }

  lemma ZeroMasked()
    ensures MaskedWord(Zeros(4)) == 0
  {
    assert Zeros(4)[0 := Zeros(4)[0] & MASK] == [0, 0, 0, 0];
  }

  /** Where the words of the last, incomplete PRF block begin. */
  function Unmasked(n: nat): (m: nat)
    ensures m <= n < m + 4
  {
    4 * (n / 4)
  }

  /** The target values behind the last whole PRF block stand in both keys' final words, negated or
      not: nothing masks them. */
  lemma ValuesInClear(c: Cipher, p: Pair, a: seq<bool>, b: seq<u32>, g0: Draws, g1: Draws, j: nat)
    requires Canonical(b) && Unmasked(|b|) <= j < |b|
    ensures FinalCorrection(c, p, a, b, g0, g1)[j] == if Walk(c, p, a).n1.bit == 1 then MOD_P - b[j] else b[j]
  {
    hide Convert, Walk, Norm;
    var q := Walk(c, p, a);
    ZeroWord(c, q.n0.seed, |b|, g0, j);
    ZeroWord(c, q.n1.seed, |b|, g1, j);
    FinalWordExact(b[j], 0, 0, q.n1.bit);
    NormSmall(b[j]);
  }

  /** The final words a server reads in its key as they are. */
  function Shown(b: seq<u32>, negated: bool): (r: seq<u32>)
    requires Canonical(b)
    ensures |r| == |b| - Unmasked(|b|)
  {
    var from := Unmasked(|b|);
    seq<u32>(|b| - from, i requires 0 <= i < |b| - from => if negated then MOD_P - b[from + i] else b[from + i])
  }

  lemma KeyShows(c: Cipher, p: Pair, n: Node, a: seq<bool>, b: seq<u32>, g0: Draws, g1: Draws)
    requires Canonical(b)
    ensures KeyOf(c, p, n, a, b, g0, g1).finalCW[Unmasked(|b|)..] == Shown(b, Walk(c, p, a).n1.bit == 1)
  {
    hide Walk, FinalCorrection, Unmasked, CorrectionWords;
    var from, shown := Unmasked(|b|), Shown(b, Walk(c, p, a).n1.bit == 1);
    var words := FinalCorrection(c, p, a, b, g0, g1);
    forall i | 0 <= i < |shown| ensures words[from..][i] == shown[i] {
      ValuesInClear(c, p, a, b, g0, g1, from + i);
    }
    assert words[from..] == shown;
  }
}
