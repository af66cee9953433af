/** tr_static_init(): the tables that map lengths and distances to their codes. */
module TreeTables {
  import opened Bits
  import opened Symbols

  datatype Tables = Tables(lengthCode: seq<nat>, baseLength: seq<nat>, distCode: seq<nat>, baseDist: seq<nat>)

  /** d_code: beyond 256 the table has one entry for 128 distances. */
  function DCode(distCode: seq<nat>, d: nat): nat
    requires d < 0x8000 && |distCode| == 512
  {
    if d < 256 then distCode[d] else distCode[256 + d / 128]
  }

  /** The tables give every length and distance the code the format gives it. */
  ghost predicate GoodTables(t: Tables) {
    GoodLengths(t.lengthCode, t.baseLength) && GoodDistances(t.distCode, t.baseDist)
  }

  lemma {:induction false} BaseGrows(extra: seq<nat>, a: nat, b: nat)
    requires a <= b <= |extra|
    ensures Base(extra, a) <= Base(extra, b)
  {
    if a < b {
      BaseGrows(extra, a, b - 1);
    }
  }

  /** Only one code fits a value. */
  lemma SplitIs(extra: seq<nat>, v: nat, c: nat, r: nat)
    requires c < |extra| && r <= c && Base(extra, r) <= v < Base(extra, r + 1) <= Base(extra, c + 1)
    ensures v < Base(extra, c + 1) && Split(extra, v, c).code == r
  {
    var q := CodeFor(extra, v, c);
    if q < r {
      BaseGrows(extra, q + 1, r);
    } else if r < q {
      BaseGrows(extra, r + 1, q);
    }
  }

  /** Values below `n` have the codes in the table, all below `codes`. */
  ghost predicate Coding(table: seq<nat>, extra: seq<nat>, codes: nat, n: nat)
    requires codes <= |extra| && n <= |table|
  {
    forall v :: 0 <= v < n ==> table[v] < codes && Base(extra, table[v]) <= v < Base(extra, table[v] + 1)
  }

  lemma CodingOneMore(before: seq<nat>, after: seq<nat>, extra: seq<nat>, code: nat, n: nat)
    requires code < |extra| && n < |before| == |after| && Coding(before, extra, code + 1, n)
    requires after == before[n := code] && Base(extra, code) <= n < Base(extra, code + 1)
    ensures Coding(after, extra, code + 1, n + 1)
  {
  }

  /** The entries of one code. */
  method FillCode(table: array<nat>, extra: seq<nat>, code: nat, from: nat) returns (at: nat)
    requires code < |extra| && from == Base(extra, code) && Base(extra, code + 1) <= table.Length
    requires from <= table.Length
    requires Coding(table[..], extra, code, from)
    modifies table
    ensures at == Base(extra, code + 1) && Coding(table[..], extra, code + 1, at)
  {
    hide Pow2, Coding;
    at := from;
    CodingWider(table[..], extra, code, at);
    for n := 0 to Pow2(extra[code])
      invariant at == from + n && at <= table.Length
      invariant Coding(table[..], extra, code + 1, at)
    {
      ghost var before := table[..];
      table[at] := code;
      assert table[..] == before[at := code];
      CodingOneMore(before, table[..], extra, code, at);
      at := at + 1;
    }
  }

  lemma CodingWider(table: seq<nat>, extra: seq<nat>, codes: nat, n: nat)
    requires codes < |extra| && n <= |table| && Coding(table, extra, codes, n)
    ensures Coding(table, extra, codes + 1, n)
  {
  }

  /** One code after the other, each beginning where the one before it ends. */
  method FillCodes(table: array<nat>, bases: array<nat>, extra: seq<nat>, codes: nat) returns (at: nat)
    requires codes <= |extra| && codes <= bases.Length && Base(extra, codes) <= table.Length && table != bases
    modifies table, bases
    ensures at == Base(extra, codes) && Coding(table[..], extra, codes, at)
    ensures forall c :: 0 <= c < codes ==> bases[c] == Base(extra, c)
  {
    hide Coding;
    at := 0;
    NothingCoded(table[..], extra);
    for code := 0 to codes
      invariant at == Base(extra, code) && at <= table.Length && Coding(table[..], extra, code, at)
      invariant forall c :: 0 <= c < code ==> bases[c] == Base(extra, c)
    {
      BaseGrows(extra, code + 1, codes);
      bases[code] := at;
      at := FillCode(table, extra, code, at);
    }
  }

  lemma NothingCoded(table: seq<nat>, extra: seq<nat>)
    ensures Base(extra, 0) == 0 && Coding(table, extra, 0, 0)
  {
  }

  // Distances beyond 256, of which the table holds one in 128.

  ghost predicate FarCoding(table: seq<nat>, codes: nat, k: nat)
    requires codes <= 30 && k <= 256 && |table| == 512
  {
    forall i :: 258 <= i < 256 + k ==> FarCode(table[i], codes, i - 256)
  }

  ghost predicate FarCode(c: nat, codes: nat, j: nat)
    requires codes <= 30
  {
    c < codes && Base(EXTRA_DBITS, c) <= 128 * j && 128 * (j + 1) <= Base(EXTRA_DBITS, c + 1)
  }

  lemma FarStep(code: nat)
    requires 16 <= code < 30
    ensures EXTRA_DBITS[code] >= 7 && Pow2(EXTRA_DBITS[code]) == 128 * Pow2(EXTRA_DBITS[code] - 7)
    ensures Base(EXTRA_DBITS, code + 1) == Base(EXTRA_DBITS, code) + Pow2(EXTRA_DBITS[code])
    ensures Base(EXTRA_DBITS, code + 1) <= 0x8000
  {
    hide Pow2, Base;
    FarExtra(code);
    CodesSuffice();
    BaseGrows(EXTRA_DBITS, code + 1, 30);
    BaseNext(code);
  }

  lemma BaseNext(code: nat)
    requires code < 30
    ensures Base(EXTRA_DBITS, code + 1) == Base(EXTRA_DBITS, code) + Pow2(EXTRA_DBITS[code])
  {
    hide Pow2, EXTRA_DBITS;
    TableSizes();
  }

  lemma FarExtra(code: nat)
    requires 16 <= code < 30
    ensures EXTRA_DBITS[code] >= 7 && Pow2(EXTRA_DBITS[code]) == 128 * Pow2(EXTRA_DBITS[code] - 7)
  {
    hide Pow2;
    SmallPowers();
  }

  lemma TableSizes()
    ensures |EXTRA_LBITS| == |LENGTH_BASE| == 29 && |EXTRA_DBITS| == |DIST_BASE| == 30
  {
  }

  /** The entries of one code. */
  method FillFar(table: array<nat>, code: nat, from: nat) returns (dist: nat)
    requires 16 <= code < 30 && table.Length == 512 && 2 <= from && 128 * from == Base(EXTRA_DBITS, code) && from <= 256
    requires FarCoding(table[..], code, from)
    modifies table
    ensures 2 <= dist <= 256 && 128 * dist == Base(EXTRA_DBITS, code + 1) && FarCoding(table[..], code + 1, dist)
    ensures table[..256] == old(table[..256])
  {
    hide Pow2, EXTRA_DBITS;
    TableSizes();
    FarStep(code);
    dist := from;
    for n := 0 to Pow2(EXTRA_DBITS[code] - 7)
      invariant dist == from + n && FarCoding(table[..], code + 1, dist)
      invariant table[..256] == old(table[..256])
    {
      table[256 + dist] := code;
      dist := dist + 1;
    }
  }

  /** The third loop: the codes from 16 on. */
  method FillFarCodes(table: array<nat>, bases: array<nat>)
    requires table.Length == 512 && bases.Length == 30 && table != bases && Base(EXTRA_DBITS, 16) == 256
    modifies table, bases
    ensures FarCoding(table[..], 30, 256) && table[..256] == old(table[..256])
    ensures forall c :: 0 <= c < 16 ==> bases[c] == old(bases[c])
    ensures forall c :: 16 <= c < 30 ==> bases[c] == Base(EXTRA_DBITS, c)
  {
    hide EXTRA_DBITS, FarCode, Base;
    TableSizes();
    var dist: nat := 2;
    for code := 16 to 30
      invariant 2 <= dist <= 256 && 128 * dist == Base(EXTRA_DBITS, code) && FarCoding(table[..], code, dist)
      invariant table[..256] == old(table[..256])
      invariant forall c :: 0 <= c < 16 ==> bases[c] == old(bases[c])
      invariant forall c :: 16 <= c < code ==> bases[c] == Base(EXTRA_DBITS, c)
    {
      bases[code] := 128 * dist;
      dist := FillFar(table, code, dist);
    }
    CodesSuffice();
  }

  ghost predicate GoodLengths(lengthCode: seq<nat>, baseLength: seq<nat>) {
    && |lengthCode| == 256 && |baseLength| == 29
    && (forall lc: byte :: lengthCode[lc] == LengthParts(lc).code)
    && (forall c :: 0 <= c < 28 ==> baseLength[c] + 3 == LENGTH_BASE[c])
  }

  ghost predicate GoodDistances(distCode: seq<nat>, baseDist: seq<nat>) {
    && |distCode| == 512 && |baseDist| == 30
    && (forall d :: 0 <= d < 0x8000 ==> DCode(distCode, d) == DistParts(d).code)
    && (forall c :: 0 <= c < 30 ==> baseDist[c] + 1 == DIST_BASE[c])
  }

  method LengthTables() returns (lengths: seq<nat>, bases: seq<nat>)
    ensures GoodLengths(lengths, bases)
  {
    hide Pow2, EXTRA_LBITS, Base;
    TableSizes();
    var lengthCode, baseLength := new nat[256], new nat[29];
    CodesSuffice();
    var length := FillCodes(lengthCode, baseLength, EXTRA_LBITS, 28);
    forall lc: byte | lc < 255 ensures lengthCode[lc] == LengthParts(lc).code {
      LengthIs(lengthCode[..], lc);
    }
    lengthCode[length - 1] := 28;
    forall c | 0 <= c < 28 ensures baseLength[c] + 3 == LENGTH_BASE[c] {
      LengthBases(c);
    }
    lengths, bases := lengthCode[..], baseLength[..];
  }

  lemma LengthIs(table: seq<nat>, lc: byte)
    requires |table| == 256 && Coding(table, EXTRA_LBITS, 28, 256) && lc < 255
    ensures table[lc] == LengthParts(lc).code
  {
    hide Pow2, EXTRA_LBITS;
    TableSizes();
    CodesSuffice();
    BaseGrows(EXTRA_LBITS, table[lc] + 1, 28);
    SplitIs(EXTRA_LBITS, lc, 27, table[lc]);
  }

  method DistTables() returns (codes: seq<nat>, bases: seq<nat>)
    ensures GoodDistances(codes, bases)
  {
    hide Pow2, EXTRA_DBITS, Base;
    TableSizes();
    var distCode, baseDist := new nat[512], new nat[30];
    NearDistances();
    var dist := FillCodes(distCode, baseDist, EXTRA_DBITS, 16);
    ghost var near := distCode[..256];
    NearIs(distCode[..]);
    FillFarCodes(distCode, baseDist);
    FarIs(distCode[..]);
    assert distCode[..256] == near;
    forall c | 0 <= c < 30 ensures baseDist[c] + 1 == DIST_BASE[c] {
      DistBases(c);
    }
    codes, bases := distCode[..], baseDist[..];
  }

  lemma NearDistances()
    ensures Base(EXTRA_DBITS, 16) == 256
  {
    hide Pow2;
    DistBases(16);
  }

  lemma NearIs(table: seq<nat>)
    requires |table| == 512 && Coding(table, EXTRA_DBITS, 16, 256)
    ensures forall d :: 0 <= d < 256 ==> table[..256][d] == DistParts(d).code
  {
    hide Pow2, EXTRA_DBITS;
    TableSizes();
    CodesSuffice();
    forall d | 0 <= d < 256 ensures table[d] == DistParts(d).code {
      BaseGrows(EXTRA_DBITS, table[d] + 1, 30);
      SplitIs(EXTRA_DBITS, d, 29, table[d]);
    }
  }

  lemma FarIs(table: seq<nat>)
    requires |table| == 512 && FarCoding(table, 30, 256)
    ensures forall d :: 256 <= d < 0x8000 ==> table[256 + d / 128] == DistParts(d).code
  {
    hide Pow2, EXTRA_DBITS;
    TableSizes();
    CodesSuffice();
    forall d | 256 <= d < 0x8000 ensures table[256 + d / 128] == DistParts(d).code {
      var c := table[256 + d / 128];
      assert FarCode(c, 30, d / 128);
      BaseGrows(EXTRA_DBITS, c + 1, 30);
      SplitIs(EXTRA_DBITS, d, 29, c);
    }
  }

  /** tr_static_init(). */
  method StaticInit() returns (t: Tables)
    ensures GoodTables(t)
  {
    hide GoodLengths, GoodDistances;
    var lengthCode, baseLength := LengthTables();
    var distCode, baseDist := DistTables();
    t := Tables(lengthCode, baseLength, distCode, baseDist);
  }
}
