/** The two pieces of the export step that are not I/O: splitting node ids into request
    batches, and choosing a file name that is not taken yet. */
module Export {

  /** Node ids sent per export request. */
  const BatchSize: nat := 50

  function Concat<T>(batches: seq<seq<T>>): seq<T>
    decreases |batches|
  {
    if batches == [] then [] else Concat(batches[..|batches| - 1]) + batches[|batches| - 1]
  }

  /** Cuts the id list into consecutive slices of `BatchSize`, the last one possibly shorter. */
  method Batches<T>(ids: seq<T>) returns (batches: seq<seq<T>>)
    ensures Concat(batches) == ids
    ensures forall k :: 0 <= k < |batches| ==> 0 < |batches[k]| <= BatchSize
    ensures forall k :: 0 <= k < |batches| - 1 ==> |batches[k]| == BatchSize
    ensures |batches| == (|ids| + BatchSize - 1) / BatchSize
  {
    batches := [];
    var i := 0;
    while i < |ids|
      invariant 0 <= i <= |ids|
      invariant i == |batches| * BatchSize || i == |ids|
      invariant |batches| == (i + BatchSize - 1) / BatchSize
      invariant Concat(batches) == ids[..i]
      invariant forall k :: 0 <= k < |batches| ==> 0 < |batches[k]| <= BatchSize
      invariant forall k :: 0 <= k < |batches| - 1 ==> |batches[k]| == BatchSize
      invariant i < |ids| ==> forall k :: 0 <= k < |batches| ==> |batches[k]| == BatchSize
      decreases |ids| - i
    {
      var end := if i + BatchSize <= |ids| then i + BatchSize else |ids|;
      var batch := ids[i..end];
      assert (batches + [batch])[..|batches|] == batches;
      assert ids[..end] == ids[..i] + batch;
      batches := batches + [batch];
      i := i + BatchSize;
      if i > |ids| { i := |ids|; }
    }
    assert ids[..i] == ids;
  }

  /** The decimal digits of `n`, as `str(n)` writes them. */
  function Decimal(n: nat): (s: string)
    ensures |s| > 0 && (n >= 10 <==> |s| >= 2)
    decreases n
  {
    if n < 10 then [Digit(n)] else Decimal(n / 10) + [Digit(n % 10)]
  }

  /** The character of the decimal digit `d`. */
  function Digit(d: nat): char
    requires d < 10
  {
    ('0' as int + d) as char
  }

  predicate IsDigits(s: string)
  {
    forall i :: 0 <= i < |s| ==> '0' <= s[i] <= '9'
  }

  /** The number a string of decimal digits denotes, most significant digit first. */
  function Value(s: string): int
    decreases |s|
  {
    if s == [] then 0 else Value(s[..|s| - 1]) * 10 + (s[|s| - 1] as int - '0' as int)
  }

  /** `Decimal(n)` is the canonical decimal numeral of `n`: decimal digits only, denoting `n`,
      and without a leading zero unless `n` is 0. */
  lemma {:induction false} DecimalValue(n: nat)
    ensures IsDigits(Decimal(n)) && Value(Decimal(n)) == n
    ensures Decimal(n)[0] == '0' ==> n == 0
    decreases n
  {
    if n >= 10 {
      var init := Decimal(n / 10);
      DecimalValue(n / 10);
      assert (init + [Digit(n % 10)])[..|init|] == init;
      assert (init + [Digit(n % 10)])[0] == init[0];
    }
  }

  /** No two numbers are written the same way. */
  lemma DecimalInjective(a: nat, b: nat)
    requires Decimal(a) == Decimal(b)
    ensures a == b
  {
    DecimalValue(a);
    DecimalValue(b);
  }

  /** The `k`-th name tried: `base.ext` first, then `base_1.ext`, `base_2.ext`, ... */
  function Candidate(base: string, ext: string, k: nat): string
  {
    if k == 0 then base + "." + ext else base + "_" + Decimal(k) + "." + ext
  }

  /** The twelfth try carries the counter as written in decimal. */
  lemma TwelfthCandidate()
    ensures Candidate("icon", "svg", 12) == "icon_12.svg"
  {
    assert Decimal(12) == Decimal(1) + [Digit(2)] == "12";
  }

  /** Distinct tries are distinct names. */
  lemma CandidateInjective(base: string, ext: string, j: nat, k: nat)
    requires Candidate(base, ext, j) == Candidate(base, ext, k)
    ensures j == k
  {
    var cj, ck := Candidate(base, ext, j), Candidate(base, ext, k);
    if j != 0 && k != 0 {
      var dj, dk := Decimal(j), Decimal(k);
      assert |dj| == |dk|;
      assert cj[|base| + 1..|base| + 1 + |dj|] == dj;
      assert ck[|base| + 1..|base| + 1 + |dk|] == dk;
      DecimalInjective(j, k);
    }
  }

  /** The duplicate handling of the rename step: the first name in the order of `Candidate`
      that is not in `existing`. `k` is the number of names found taken. */
  method FreeName(base: string, ext: string, existing: set<string>) returns (name: string, k: nat)
    ensures name == Candidate(base, ext, k) && name !in existing
    ensures forall j :: 0 <= j < k ==> Candidate(base, ext, j) in existing
  {
    name := Candidate(base, ext, 0);
    var counter := 1;
    while name in existing
      invariant counter >= 1
      invariant name == Candidate(base, ext, counter - 1)
      invariant forall j :: 0 <= j < counter - 1 ==> Candidate(base, ext, j) in existing
      decreases existing - Tried(base, ext, counter - 1)
    {
      TriedStep(base, ext, counter - 1);
      name := base + "_" + Decimal(counter) + "." + ext;
      counter := counter + 1;
    }
    k := counter - 1;
  }

  /** The names tried before the `n`-th. */
  ghost function Tried(base: string, ext: string, n: nat): set<string>
  {
    set j | 0 <= j < n :: Candidate(base, ext, j)
  }

  /** Trying the `n`-th name adds a name not tried before. */
  lemma TriedStep(base: string, ext: string, n: nat)
    ensures Tried(base, ext, n + 1) == Tried(base, ext, n) + {Candidate(base, ext, n)}
    ensures Candidate(base, ext, n) !in Tried(base, ext, n)
  {
    if Candidate(base, ext, n) in Tried(base, ext, n) {
      var j :| 0 <= j < n && Candidate(base, ext, j) == Candidate(base, ext, n);
      CandidateInjective(base, ext, j, n);
    }
  }
}
