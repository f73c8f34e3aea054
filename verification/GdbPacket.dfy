/**
 * Remote-debugging packets of kernel/gdb_serial.c: run-length encoding and checksum on the way out
 * (putfrags), hexadecimal decoding on the way in (hex, hex2bin). Characters are byte codes.
 */
module GdbPacket {
  import opened Arithmetic
  import opened Bytes

  const HASH: nat := 35         // '#'
  const DOLLAR: nat := 36       // '$'
  const STAR: nat := 42         // '*'
  const PLUS: nat := 43         // '+'

  // ---------------------------------------------------------------- hexadecimal digits

  /** hexchars[n] */
  function HexChar(n: nat): (c: nat)
    requires n < 16
    ensures 48 <= c <= 57 || 97 <= c <= 102
  {
    if n < 10 then 48 + n else 87 + n
  }

  /** hex(): value of a digit in either case, -1 for any other character. */
  function Hex(ch: nat): int {
    if 48 <= ch <= 57 then ch - 48
    else if 97 <= ch <= 102 then ch - 97 + 10
    else if 65 <= ch <= 70 then ch - 65 + 10
    else -1
  }

  /** A hexadecimal digit in either case, and its value. */
  predicate StandsFor(ch: nat, v: nat) {
    v < 16 && (ch == "0123456789abcdef"[v] as nat || ch == "0123456789ABCDEF"[v] as nat)
  }

  /** Digits are sent in lower case. */
  lemma HexChars(n: nat)
    requires n < 16
    ensures HexChar(n) == "0123456789abcdef"[n] as nat
  {
    if n < 10 {
      assert "0123456789abcdef"[..10] == "0123456789";
    }
  }

  /** Digits are read in either case, and nothing else is one. */
  lemma HexValues(ch: nat, v: nat)
    ensures Hex(ch) == v <==> StandsFor(ch, v)
    ensures Hex(ch) >= 0 ==> Hex(ch) < 16
    ensures Hex(ch) < 0 ==> Hex(ch) == -1
  {
  }

  /** The plain hexadecimal text of some bytes. */
  function Hexify(s: seq<nat>): seq<nat>
    requires AllBytes(s)
  {
    if s == [] then [] else [HexChar(s[0] / 16), HexChar(s[0] % 16)] + Hexify(s[1..])
  }

  /** The pair of characters at position k makes a byte. */
  predicate GoodPair(text: seq<nat>, k: nat)
    requires 2 * k + 1 < |text|
  {
    Hex(text[2 * k]) >= 0 && Hex(text[2 * k + 1]) >= 0
  }

  function PairValue(text: seq<nat>, k: nat): nat
    requires 2 * k + 1 < |text| && GoodPair(text, k)
  {
    Hex(text[2 * k]) * 16 + Hex(text[2 * k + 1])
  }

  /** The characters at position k are digits with the values hi and lo. */
  predicate IsPair(text: seq<nat>, k: nat, hi: nat, lo: nat)
    requires 2 * k + 1 < |text|
  {
    StandsFor(text[2 * k], hi) && StandsFor(text[2 * k + 1], lo)
  }

  lemma PairDigits(text: seq<nat>, k: nat)
    requires 2 * k + 1 < |text|
    ensures GoodPair(text, k) <==> exists hi: nat, lo: nat :: IsPair(text, k, hi, lo)
    ensures forall hi: nat, lo: nat :: IsPair(text, k, hi, lo) ==>
      GoodPair(text, k) && PairValue(text, k) == 16 * hi + lo
  {
    var a, b := text[2 * k], text[2 * k + 1];
    forall hi: nat, lo: nat
      ensures IsPair(text, k, hi, lo) <==> Hex(a) == hi && Hex(b) == lo
    {
      HexValues(a, hi);
      HexValues(b, lo);
    }
    if GoodPair(text, k) {
      assert IsPair(text, k, Hex(a), Hex(b));
    }
  }

  /** hex2bin: decodes len pairs into out, stopping with -1 at the first pair that is not hexadecimal. */
  method Hex2Bin(text: seq<nat>, out: array<nat>, len: nat) returns (rc: int)
    requires 2 * len <= |text| && len <= out.Length
    modifies out
    ensures rc == 0 || rc == -1
    ensures rc == 0 <==> forall k: nat :: k < len ==> GoodPair(text, k)
    ensures forall k: nat :: k < len && (forall l: nat :: l <= k ==> GoodPair(text, l)) ==> out[k] == PairValue(text, k)
    ensures forall k: nat, hi: nat, lo: nat :: k < len && (forall l: nat :: l <= k ==> GoodPair(text, l)) ==>
      IsPair(text, k, hi, lo) ==> out[k] == 16 * hi + lo
    ensures forall k: nat :: k < out.Length && (k >= len || exists l: nat :: l <= k && !GoodPair(text, l)) ==>
      out[k] == old(out[k])
  {
    var k := 0;
    forall l: nat | 2 * l + 1 < |text|
      ensures forall hi: nat, lo: nat :: IsPair(text, l, hi, lo) && GoodPair(text, l) ==>
        PairValue(text, l) == 16 * hi + lo
    {
      PairDigits(text, l);
    }
    while k < len
      invariant 0 <= k <= len
      invariant forall l: nat :: l < k ==> GoodPair(text, l) && out[l] == PairValue(text, l)
      invariant forall l: nat :: k <= l < out.Length ==> out[l] == old(out[l])
    {
      var high, low := Hex(text[2 * k]), Hex(text[2 * k + 1]);
      if high < 0 || low < 0 {
        assert !GoodPair(text, k);
        return -1;
      }
      out[k] := high * 16 + low;
      k := k + 1;
    }
    return 0;
  }

  lemma HexOfHexChar(n: nat)
    requires n < 16
    ensures Hex(HexChar(n)) == n
  {
  }

  lemma {:induction false} HexifyPairs(s: seq<nat>, k: nat)
    requires AllBytes(s) && k < |s|
    ensures |Hexify(s)| == 2 * |s|
    ensures GoodPair(Hexify(s), k) && PairValue(Hexify(s), k) == s[k]
  {
    var t := Hexify(s[1..]);
    HexifyLength(s[1..]);
    if k == 0 {
      HexOfHexChar(s[0] / 16);
      HexOfHexChar(s[0] % 16);
    } else {
      HexifyPairs(s[1..], k - 1);
      assert Hexify(s)[2 * k] == t[2 * (k - 1)];
      assert Hexify(s)[2 * k + 1] == t[2 * (k - 1) + 1];
    }
  }

  lemma {:induction false} HexifyLength(s: seq<nat>)
    requires AllBytes(s)
    ensures |Hexify(s)| == 2 * |s|
  {
    if s != [] {
      HexifyLength(s[1..]);
    }
  }

  /** Decoding the plain hexadecimal text of some bytes gives the bytes back. */
  method HexRoundTrip(s: seq<nat>) returns (out: array<nat>)
    requires AllBytes(s)
    ensures fresh(out) && out[..] == s
  {
    var text := Hexify(s);
    HexifyLength(s);
    out := new nat[|s|];
    forall k: nat | k < |s|
      ensures GoodPair(text, k) && PairValue(text, k) == s[k]
    {
      HexifyPairs(s, k);
    }
    var rc := Hex2Bin(text, out, |s|);
  }

  // ---------------------------------------------------------------- run-length encoding

  /** How many times the first byte is repeated at the start. */
  function RunLength(s: seq<nat>): (r: nat)
    requires s != []
    ensures 1 <= r <= |s|
    ensures forall i :: 0 <= i < r ==> s[i] == s[0]
    ensures r < |s| ==> s[r] != s[0]
  {
    if |s| == 1 || s[1] != s[0] then 1 else 1 + RunLength(s[1..])
  }

  function Min(a: nat, b: nat): nat {
    if a < b then a else b
  }

  /** Bytes that the encoder takes in one turn: a run it can shorten, or a single byte. */
  function Chunk(hexify: bool, s: seq<nat>): (k: nat)
    requires s != []
    ensures 1 <= k <= RunLength(s)
  {
    var r := RunLength(s);
    if hexify then if r >= 2 && s[0] / 16 == s[0] % 16 then Min(r, 49) else 1
    else if r >= 4 then Min(r, 98) else 1
  }

  /** What it sends for them: the character, '*', and 28 more than the number of characters stood for. */
  function ChunkCode(hexify: bool, s: seq<nat>): seq<nat>
    requires s != [] && AllBytes(s)
  {
    var k := Chunk(hexify, s);
    if hexify then
      if k >= 2 then [HexChar(s[0] % 16), STAR, 28 + 2 * k] else [HexChar(s[0] / 16), HexChar(s[0] % 16)]
    else if k >= 4 then [s[0], STAR, 28 + k] else [s[0]]
  }

  function Encode(hexify: bool, s: seq<nat>): seq<nat>
    requires AllBytes(s)
  {
    if s == [] then [] else ChunkCode(hexify, s) + Encode(hexify, s[Chunk(hexify, s)..])
  }

  /** What the fragment stands for. */
  function Text(hexify: bool, s: seq<nat>): seq<nat>
    requires AllBytes(s)
  {
    if hexify then Hexify(s) else s
  }

  /** Expansion of runs, as the protocol appendix prescribes: c '*' n stands for n - 28 times c. */
  function Expand(s: seq<nat>): seq<nat> {
    if s == [] then []
    else if |s| >= 3 && s[1] == STAR && s[2] >= 28 then Repeat(s[0], s[2] - 28) + Expand(s[3..])
    else [s[0]] + Expand(s[1..])
  }

  function Repeat(c: nat, n: nat): (r: seq<nat>)
    ensures |r| == n && forall i :: 0 <= i < n ==> r[i] == c
  {
    seq(n, _ => c)
  }

  /** The characters that one turn of the encoder stands for. */
  function ChunkText(hexify: bool, s: seq<nat>): seq<nat>
    requires s != [] && AllBytes(s)
  {
    var k := Chunk(hexify, s);
    if hexify && k >= 2 then Repeat(HexChar(s[0] % 16), 2 * k)
    else if hexify then [HexChar(s[0] / 16), HexChar(s[0] % 16)]
    else Repeat(s[0], k)
  }

  predicate StarFree(s: seq<nat>) {
    forall i :: 0 <= i < |s| ==> s[i] != STAR
  }

  predicate NoLeadingStar(s: seq<nat>) {
    s == [] || s[0] != STAR
  }

  lemma EncodeNoLeadingStar(hexify: bool, s: seq<nat>)
    requires AllBytes(s) && (hexify || StarFree(s))
    ensures NoLeadingStar(Encode(hexify, s))
    ensures s != [] ==> Encode(hexify, s) != []
  {
  }

  lemma {:induction false} HexifyRun(s: seq<nat>, k: nat)
    requires AllBytes(s) && s != [] && k <= RunLength(s) && s[0] / 16 == s[0] % 16
    ensures Hexify(s) == Repeat(HexChar(s[0] % 16), 2 * k) + Hexify(s[k..])
  {
    if k == 0 {
      assert s[0..] == s;
    } else if k == 1 {
    } else {
      HexifyRun(s[1..], k - 1);
      assert s[1..][k - 1..] == s[k..];
    }
  }

  /** The text of a fragment begins with that of its first chunk. */
  lemma TextOfChunk(hexify: bool, s: seq<nat>)
    requires s != [] && AllBytes(s)
    ensures Text(hexify, s) == ChunkText(hexify, s) + Text(hexify, s[Chunk(hexify, s)..])
  {
    var k := Chunk(hexify, s);
    if hexify && k >= 2 {
      HexifyRun(s, k);
    } else if !hexify {
      assert s == s[..k] + s[k..];
      assert s[..k] == Repeat(s[0], k);
    }
  }

  lemma ExpandChunk(hexify: bool, s: seq<nat>, rest: seq<nat>)
    requires s != [] && AllBytes(s) && (hexify || StarFree(s)) && NoLeadingStar(rest)
    ensures Expand(ChunkCode(hexify, s) + rest) == ChunkText(hexify, s) + Expand(rest)
  {
    var k, code := Chunk(hexify, s), ChunkCode(hexify, s);
    var all := code + rest;
    if |code| == 3 {
      assert all[3..] == rest;
    } else if hexify {
      assert all[1..] == [code[1]] + rest;
      assert all[1..][1..] == rest;
      assert all == [code[0]] + ([code[1]] + rest);
    } else {
      assert all[1..] == rest;
      assert [s[0]] == Repeat(s[0], 1);
    }
  }

  lemma Assoc(a: seq<nat>, b: seq<nat>, c: seq<nat>)
    ensures (a + b) + c == a + (b + c)
  {
  }

  /** Expanding what was sent for a fragment gives its text, whatever follows it. */
  lemma {:induction false} ExpandEncode(hexify: bool, s: seq<nat>, tail: seq<nat>)
    requires AllBytes(s) && (hexify || StarFree(s)) && NoLeadingStar(tail)
    ensures Expand(Encode(hexify, s) + tail) == Text(hexify, s) + Expand(tail)
    decreases |s|
  {
    if s == [] {
      assert Encode(hexify, s) + tail == tail;
      assert Text(hexify, s) + Expand(tail) == Expand(tail);
    } else {
      var next := s[Chunk(hexify, s)..];
      ExpandEncode(hexify, next, tail);
      EncodeNoLeadingStar(hexify, next);
      ExpandChunk(hexify, s, Encode(hexify, next) + tail);
      Assoc(ChunkCode(hexify, s), Encode(hexify, next), tail);
      TextOfChunk(hexify, s);
      Assoc(ChunkText(hexify, s), Text(hexify, next), Expand(tail));
    }
  }

  lemma {:induction false} EncodeIsNoLonger(hexify: bool, s: seq<nat>)
    requires AllBytes(s)
    ensures |Encode(hexify, s)| <= |Text(hexify, s)|
    decreases |s|
  {
    HexifyLength(s);
    if s != [] {
      var next := s[Chunk(hexify, s)..];
      HexifyLength(next);
      EncodeIsNoLonger(hexify, next);
    }
  }

  /** A character that may stand in the body of a hexified fragment. */
  predicate HexBodyChar(c: nat) {
    Hex(c) >= 0 || c == STAR || (32 <= c <= 126 && c % 2 == 0)
  }

  /** A hexified body has hex digits, '*', and even counts from 32 to 126: never '#' nor '}'. */
  lemma {:induction false} HexBody(s: seq<nat>)
    requires AllBytes(s)
    ensures forall c :: c in Encode(true, s) ==> HexBodyChar(c) && c != HASH && c != 125
    decreases |s|
  {
    if s != [] {
      HexBody(s[Chunk(true, s)..]);
      forall c | c in ChunkCode(true, s)
        ensures HexBodyChar(c)
      {
      }
    }
  }

  /** Bytes a run may have in one group, and those it must have to be shortened. */
  function Limit(hexify: bool): nat { if hexify then 49 else 98 }

  function Least(hexify: bool): nat { if hexify then 2 else 4 }

  /** Some maximal run, one that can be shortened, leaves n bytes once full groups are taken from it. */
  predicate LeavesRun(hexify: bool, s: seq<nat>, n: nat)
    decreases |s|
  {
    s != [] &&
      ((RunLength(s) % Limit(hexify) == n && (hexify ==> s[0] / 16 == s[0] % 16))
       || LeavesRun(hexify, s[RunLength(s)..], n))
  }

  /** Seven bytes: their count byte is '#'. */
  predicate BadRun(s: seq<nat>) {
    LeavesRun(false, s, 7)
  }

  lemma RunIs(s: seq<nat>, k: nat)
    requires s != [] && 1 <= k <= |s| && (forall i :: 0 <= i < k ==> s[i] == s[0])
    ensures RunLength(s) >= k
    ensures k == |s| || s[k] != s[0] ==> RunLength(s) == k
  {
  }

  lemma RunLengthAfter(s: seq<nat>, k: nat)
    requires s != [] && k < RunLength(s)
    ensures RunLength(s[k..]) == RunLength(s) - k
    ensures s[k..][RunLength(s) - k..] == s[RunLength(s)..]
  {
    RunIs(s[k..], RunLength(s) - k);
  }

  /** A count byte, other than the one that looks like '*', is in a plain body for one of two reasons. */
  lemma {:induction false} PlainCount(s: seq<nat>, n: nat)
    requires AllBytes(s) && 4 <= n < 98 && 28 + n != STAR
    ensures 28 + n in Encode(false, s) <==> 28 + n in s || LeavesRun(false, s, n)
    decreases |s|
  {
    if s != [] {
      var c, k := 28 + n, Chunk(false, s);
      var next, code := s[k..], ChunkCode(false, s);
      PlainCount(next, n);
      LeavesRunChunk(false, s, n);
      CountInChunk(s, n);
      assert Encode(false, s) == code + Encode(false, next);
      InConcat(c, code, Encode(false, next));
      InParts(c, s, k);
    }
  }

  lemma InParts(c: nat, s: seq<nat>, k: nat)
    requires k <= |s|
    ensures c in s <==> c in s[..k] || c in s[k..]
  {
    assert s == s[..k] + s[k..];
  }

  lemma CountInChunk(s: seq<nat>, n: nat)
    requires s != [] && AllBytes(s) && 28 + n != STAR
    ensures 28 + n in ChunkCode(false, s) <==> s[0] == 28 + n || (Chunk(false, s) == n && n >= 4)
    ensures 28 + n in s[..Chunk(false, s)] <==> s[0] == 28 + n
  {
    assert s[..Chunk(false, s)][0] == s[0];
  }

  /**
   * The body of a plain fragment contains '#', the end mark of packets, exactly when the data does
   * or when some run is sent with the count byte of seven.
   */
  lemma PlainHash(s: seq<nat>)
    requires AllBytes(s)
    ensures HASH in Encode(false, s) <==> HASH in s || BadRun(s)
  {
    PlainCount(s, 7);
  }

  /** The count byte of eight is '$', the start mark. */
  lemma PlainDollar(s: seq<nat>)
    requires AllBytes(s)
    ensures DOLLAR in Encode(false, s) <==> DOLLAR in s || LeavesRun(false, s, 8)
  {
    PlainCount(s, 8);
  }

  /** It is in a hexified body exactly when four equal bytes of two equal digits are sent as one run. */
  lemma {:induction false} HexDollar(s: seq<nat>)
    requires AllBytes(s)
    ensures DOLLAR in Encode(true, s) <==> LeavesRun(true, s, 4)
    decreases |s|
  {
    if s != [] {
      var next, code := s[Chunk(true, s)..], ChunkCode(true, s);
      HexDollar(next);
      LeavesRunChunk(true, s, 4);
      assert Encode(true, s) == code + Encode(true, next);
      InConcat(DOLLAR, code, Encode(true, next));
    }
  }

  lemma InConcat(c: nat, a: seq<nat>, b: seq<nat>)
    ensures c in a + b <==> c in a || c in b
  {
  }

  lemma LeavesRunChunk(hexify: bool, s: seq<nat>, n: nat)
    requires s != [] && Least(hexify) <= n < Limit(hexify)
    ensures LeavesRun(hexify, s, n) <==> Chunk(hexify, s) == n || LeavesRun(hexify, s[Chunk(hexify, s)..], n)
  {
    var r, k := RunLength(s), Chunk(hexify, s);
    if k < r {
      RunLengthAfter(s, k);
    }
    if !hexify || s[0] / 16 == s[0] % 16 {
      RemainderAfter(r, k, Least(hexify), Limit(hexify), n);
    }
  }

  /** Taking one group from a run of r characters keeps its remainder. */
  lemma RemainderAfter(r: nat, k: nat, least: nat, limit: nat, n: nat)
    requires 1 <= r && 1 <= least <= n < limit && k == if r >= least then Min(r, limit) else 1
    ensures k < r ==> k != n && (r % limit == n <==> (r - k) % limit == n)
    ensures k == r ==> (r % limit == n <==> k == n)
  {
    if r >= limit {
      ModAddMultiple(r - limit, 1, limit);
    }
  }

  /** Seven equal characters in a plain fragment put the packet's end mark into its body. */
  lemma SevenInARow(c: nat)
    requires IsByte(c)
    ensures HASH in Encode(false, [c, c, c, c, c, c, c])
  {
    var s := [c, c, c, c, c, c, c];
    RunIs(s, 7);
    PlainHash(s);
  }

  /** Eight of them, or four bytes of two equal digits in a hexified one, put the start mark there. */
  lemma EightInARow(c: nat, d: nat)
    requires IsByte(c) && d < 16
    ensures DOLLAR in Encode(false, [c, c, c, c, c, c, c, c])
    ensures DOLLAR in Encode(true, [17 * d, 17 * d, 17 * d, 17 * d])
  {
    var s, t := [c, c, c, c, c, c, c, c], [17 * d, 17 * d, 17 * d, 17 * d];
    RunIs(s, 8);
    PlainDollar(s);
    RunIs(t, 4);
    HexDollar(t);
  }

  // ---------------------------------------------------------------- the encoder

  /** struct outfrag: `data` is the memory from the pointer on; length 0 means up to a NUL. */
  datatype Frag = Frag(data: seq<nat>, len: nat, hexify: bool)

  predicate Readable(f: Frag) {
    AllBytes(f.data) && f.len <= |f.data| && (f.len == 0 ==> 0 in f.data)
  }

  function Content(f: Frag): (s: seq<nat>)
    requires Readable(f)
    ensures AllBytes(s) && |s| <= |f.data| && s == f.data[..|s|]
  {
    if f.len > 0 then f.data[..f.len] else UpToNul(f.data)
  }

  /** What has been sent so far and what is still to come for the bytes from p on. */
  ghost predicate Sent(f: Frag, done: seq<nat>, p: nat)
    requires Readable(f) && p <= |Content(f)|
  {
    done + Encode(f.hexify, Content(f)[p..]) == Encode(f.hexify, Content(f))
  }

  lemma SentMore(f: Frag, done: seq<nat>, p: nat, code: seq<nat>, q: nat)
    requires Readable(f) && p < |Content(f)| && Sent(f, done, p)
    requires code == ChunkCode(f.hexify, Content(f)[p..]) && q == p + Chunk(f.hexify, Content(f)[p..])
    ensures p < q <= |Content(f)| && Sent(f, done + code, q)
  {
    var s := Content(f);
    var t, k := s[p..], Chunk(f.hexify, s[p..]);
    assert k <= |t| && t[k..] == s[q..];
    Assoc(done, code, Encode(f.hexify, s[q..]));
  }

  lemma SentAll(f: Frag, done: seq<nat>)
    requires Readable(f) && Sent(f, done, |Content(f)|)
    ensures done == Encode(f.hexify, Content(f))
  {
    assert Content(f)[|Content(f)|..] == [];
  }

  lemma SentNothing(f: Frag)
    requires Readable(f)
    ensures Sent(f, [], 0)
  {
    assert Content(f)[0..] == Content(f);
  }

  /** The loop of putfrags over one fragment. It never reads past the fragment or its NUL. */
  method PutFrag(f: Frag) returns (body: seq<nat>)
    requires Readable(f)
    ensures body == Encode(f.hexify, Content(f))
  {
    ghost var s := Content(f);
    var p := 0;
    body := [];
    SentNothing(f);
    while if f.len != 0 then p < f.len else f.data[p] != 0
      invariant 0 <= p <= |s| && (f.len == 0 ==> p < |f.data|)
      invariant Sent(f, body, p)
      decreases |s| - p
    {
      body, p := PutChunk(f, p, body);
    }
    SentAll(f, body);
  }

  /** One turn of that loop: a run, or a single byte. */
  method PutChunk(f: Frag, p: nat, body: seq<nat>) returns (body': seq<nat>, q: nat)
    requires Readable(f) && p < |Content(f)| && Sent(f, body, p)
    ensures p < q <= |Content(f)| && Sent(f, body', q)
  {
    var code;
    code, q := ChunkAt(f, p);
    SentMore(f, body, p, code, q);
    body' := body + code;
  }

  /** The characters sent in one turn, and where the next one begins. */
  method ChunkAt(f: Frag, p: nat) returns (code: seq<nat>, q: nat)
    requires Readable(f) && p < |Content(f)|
    ensures code == ChunkCode(f.hexify, Content(f)[p..])
    ensures q == p + Chunk(f.hexify, Content(f)[p..])
  {
    var data, hexify := f.data, f.hexify;
    ghost var s := Content(f);
    assert s[p..][0] == data[p];
    var run := TestRun(f, p);
    if run {
      q := FindRunEnd(f, p);
      code := if hexify then [HexChar(data[p] % 16), STAR, 29 + (q - p) * 2 - 1]
              else [data[p], STAR, 29 + (q - p) - 1];
    } else {
      NoRun(f, p);
      q := p + 1;
      code := if hexify then [HexChar(data[p] / 16), HexChar(data[p] % 16)] else [data[p]];
    }
  }

  /** At p the encoder has equal bytes enough for a run of four output characters. */
  predicate SeesRun(f: Frag, p: nat)
    requires Readable(f) && p < |Content(f)|
  {
    var s, need := Content(f), if f.hexify then 2 else 4;
    p + need <= |s| && (forall i :: p <= i < p + need ==> s[i] == s[p]) && (f.hexify ==> s[p] / 16 == s[p] % 16)
  }

  /** The same without a quantifier, and what may be read of the memory behind the fragment. */
  lemma RunSeen(f: Frag, p: nat)
    requires Readable(f) && p < |Content(f)|
    ensures var data, n := f.data, |Content(f)|;
      && n <= |data|
      && (if f.len == 0 then n < |data| && data[n] == 0 else n == f.len)
      && (f.len == 0 ==> data[p] != 0)
      && (SeesRun(f, p) <==>
            if f.hexify then p + 1 < n && data[p + 1] == data[p] && data[p] / 16 == data[p] % 16
            else p + 3 < n && data[p + 1] == data[p] && data[p + 2] == data[p] && data[p + 3] == data[p])
  {
    var s := Content(f);
    assert s == f.data[..|s|];
    assert s[p] == f.data[p];
    assert f.len == 0 ==> s[p] in s;
    if p + 1 < |s| { assert s[p + 1] == f.data[p + 1]; }
    if p + 3 < |s| { assert s[p + 2] == f.data[p + 2] && s[p + 3] == f.data[p + 3]; }
  }

  /** The condition under which putfrags run-length encodes. */
  method TestRun(f: Frag, p: nat) returns (b: bool)
    requires Readable(f) && p < |Content(f)|
    ensures b == SeesRun(f, p)
  {
    var data := f.data;
    RunSeen(f, p);
    b := (f.len == 0 || p + (if f.hexify then 1 else 3) < f.len)
      && data[p + 1] == data[p]
      && (if f.hexify then data[p] / 16 == data[p] % 16
          else data[p + 2] == data[p] && data[p + 3] == data[p]);
  }

  lemma NoRun(f: Frag, p: nat)
    requires Readable(f) && p < |Content(f)| && !SeesRun(f, p)
    ensures Chunk(f.hexify, Content(f)[p..]) == 1
  {
    var t := Content(f)[p..];
    var r := RunLength(t);
    assert forall i :: 0 <= i < r ==> t[i] == Content(f)[p + i];
  }

  /** The inner loop: the end of the run, at most 98 output characters on. */
  method FindRunEnd(f: Frag, p: nat) returns (q: nat)
    requires Readable(f) && p < |Content(f)| && SeesRun(f, p)
    ensures q == p + Chunk(f.hexify, Content(f)[p..]) && q >= p + if f.hexify then 2 else 4
  {
    ghost var s := Content(f);
    ghost var t := s[p..];
    var limit := if f.hexify then p + 49 else p + 98;
    q := if f.hexify then p + 2 else p + 4;
    if f.len != 0 && limit > f.len {
      limit := f.len;
    }
    while q < limit && f.data[q] == f.data[p]
      invariant p + (if f.hexify then 2 else 4) <= q <= limit && q <= |s|
      invariant f.len == 0 ==> q < |f.data|
      invariant forall i :: 0 <= i < q - p ==> t[i] == t[0]
    {
      q := q + 1;
    }
    RunIs(t, q - p);
    ChunkIs(f.hexify, t, q - p);
  }

  lemma ChunkIs(hexify: bool, t: seq<nat>, k: nat)
    requires t != [] && Least(hexify) <= k <= Limit(hexify) && (hexify ==> t[0] / 16 == t[0] % 16)
    requires if k == Limit(hexify) then RunLength(t) >= k else RunLength(t) == k
    ensures Chunk(hexify, t) == k
  {
  }

  /** Expanding the body of a hexified fragment and reading the pairs gives its bytes, and no others. */
  lemma HexFragmentDecodes(s: seq<nat>, k: nat)
    requires AllBytes(s)
    ensures |Expand(Encode(true, s))| == 2 * |s|
    ensures k < |s| ==> GoodPair(Expand(Encode(true, s)), k) && PairValue(Expand(Encode(true, s)), k) == s[k]
  {
    ExpandEncode(true, s, []);
    assert Encode(true, s) + [] == Encode(true, s) && Hexify(s) + Expand([]) == Hexify(s);
    HexifyLength(s);
    if k < |s| {
      HexifyPairs(s, k);
    }
  }

  /** putfrags and hex2bin, with a receiver between them that expands runs. */
  method SendAndDecode(f: Frag) returns (out: array<nat>, rc: int)
    requires Readable(f) && f.hexify
    ensures rc == 0 && fresh(out) && out[..] == Content(f)
  {
    ghost var s := Content(f);
    var body := PutFrag(f);
    var text := Expand(body);
    HexFragmentDecodes(s, 0);
    out := new nat[|text| / 2];
    forall k: nat | k < |s|
      ensures GoodPair(text, k) && PairValue(text, k) == s[k]
    {
      HexFragmentDecodes(s, k);
    }
    rc := Hex2Bin(text, out, |text| / 2);
  }

  // ---------------------------------------------------------------- whole packets

  predicate AllReadable(frags: seq<Frag>) {
    forall i :: 0 <= i < |frags| ==> Readable(frags[i])
  }

  function Body(frags: seq<Frag>): seq<nat>
    requires AllReadable(frags)
  {
    if frags == [] then [] else Encode(frags[0].hexify, Content(frags[0])) + Body(frags[1..])
  }

  /** What the packet says: hexadecimal text of the hexified fragments, the others as they are. */
  function Message(frags: seq<Frag>): seq<nat>
    requires AllReadable(frags)
  {
    if frags == [] then [] else Text(frags[0].hexify, Content(frags[0])) + Message(frags[1..])
  }

  function Sum(s: seq<nat>): nat {
    if s == [] then 0 else s[0] + Sum(s[1..])
  }

  lemma {:induction false} SumConcat(a: seq<nat>, b: seq<nat>)
    ensures Sum(a + b) == Sum(a) + Sum(b)
  {
    if a == [] {
      assert a + b == b;
    } else {
      SumConcat(a[1..], b);
      assert (a + b)[1..] == a[1..] + b;
    }
  }

  /** The end mark and the checksum in hexadecimal. */
  function Trailer(checksum: nat): seq<nat>
    requires checksum < 256
  {
    [HASH, HexChar(checksum / 16), HexChar(checksum % 16)]
  }

  function Packet(frags: seq<Frag>): seq<nat>
    requires AllReadable(frags)
  {
    [DOLLAR] + (Body(frags) + Trailer(Sum(Body(frags)) % 256))
  }

  /** The part of the body that stands for the first fragments. */
  function BodyTo(frags: seq<Frag>, n: nat): seq<nat>
    requires AllReadable(frags) && n <= |frags|
  {
    if n == 0 then [] else BodyTo(frags, n - 1) + Encode(frags[n - 1].hexify, Content(frags[n - 1]))
  }

  lemma RestStep(frags: seq<Frag>, n: nat)
    requires AllReadable(frags) && 0 < n <= |frags|
    ensures BodyTo(frags, n) + Body(frags[n..]) == BodyTo(frags, n - 1) + Body(frags[n - 1..])
  {
    var rest, f := frags[n - 1..], frags[n - 1];
    assert rest[0] == f && rest[1..] == frags[n..];
    Assoc(BodyTo(frags, n - 1), Encode(f.hexify, Content(f)), Body(rest[1..]));
  }

  lemma {:induction false} BodyToAndRest(frags: seq<Frag>, n: nat)
    requires AllReadable(frags) && n <= |frags|
    ensures BodyTo(frags, n) + Body(frags[n..]) == Body(frags)
  {
    if n == 0 {
      assert frags[0..] == frags;
    } else {
      BodyToAndRest(frags, n - 1);
      RestStep(frags, n);
    }
  }

  lemma BodyToAll(frags: seq<Frag>)
    requires AllReadable(frags)
    ensures BodyTo(frags, |frags|) == Body(frags)
  {
    BodyToAndRest(frags, |frags|);
    assert frags[|frags|..] == [];
  }

  function AddTo(checksum: nat, part: seq<nat>): (r: nat)
    ensures r < 256
  {
    (checksum + Sum(part)) % 256
  }

  lemma ChecksumMore(body: seq<nat>, part: seq<nat>, checksum: nat)
    requires checksum == Sum(body) % 256
    ensures AddTo(checksum, part) == Sum(body + part) % 256
  {
    SumConcat(body, part);
    assert Sum(body) == Sum(body) / 256 * 256 + checksum;
    ModAddMultiple(checksum + Sum(part), Sum(body) / 256, 256);
  }

  /** One transmission by putfrags. */
  method SendPacket(frags: seq<Frag>) returns (sent: seq<nat>)
    requires AllReadable(frags)
    ensures sent == Packet(frags)
  {
    var checksum := 0;
    var body := [];
    for i := 0 to |frags|
      invariant checksum < 256 && checksum == Sum(body) % 256
      invariant body == BodyTo(frags, i)
    {
      var part := PutFrag(frags[i]);
      ChecksumMore(body, part, checksum);
      checksum := AddTo(checksum, part);
      body := body + part;
    }
    BodyToAll(frags);
    sent := [DOLLAR] + (body + Trailer(checksum));
  }

  /** putfrags: the same packet again until the answer is '+'. */
  method PutFrags(frags: seq<Frag>, replies: seq<nat>) returns (sent: seq<seq<nat>>)
    requires AllReadable(frags) && exists i :: 0 <= i < |replies| && replies[i] % 128 == PLUS
    ensures 1 <= |sent| <= |replies| && replies[|sent| - 1] % 128 == 43
    ensures forall i :: 0 <= i < |sent| - 1 ==> replies[i] % 128 != 43
    ensures forall i :: 0 <= i < |sent| ==> sent[i] == Packet(frags)
  {
    sent := [];
    ghost var all := Packet(frags);
    while true
      invariant |sent| <= |replies|
      invariant forall i :: 0 <= i < |sent| ==> replies[i] % 128 != PLUS && sent[i] == all
      decreases |replies| - |sent|
    {
      var packet := SendPacket(frags);
      sent := sent + [packet];
      if replies[|sent| - 1] % 128 == PLUS {
        return;
      }
    }
  }

  /** What a receiver takes as the body: the characters up to the first '#'. */
  function UpToHash(s: seq<nat>): seq<nat> {
    if s == [] || s[0] == HASH then [] else [s[0]] + UpToHash(s[1..])
  }

  lemma {:induction false} UpToHashIs(body: seq<nat>, tail: seq<nat>)
    requires tail != [] && tail[0] == HASH
    ensures UpToHash(body + tail) == body <==> HASH !in body
    ensures |UpToHash(body + tail)| <= |body|
  {
    if body == [] {
      assert body + tail == tail;
    } else {
      UpToHashIs(body[1..], tail);
      assert (body + tail)[1..] == body[1..] + tail;
      assert body == [body[0]] + body[1..];
      InConcat(HASH, [body[0]], body[1..]);
      if body[0] != HASH {
        var u := UpToHash(body[1..] + tail);
        assert UpToHash(body + tail) == [body[0]] + u;
        assert ([body[0]] + u)[1..] == u;
      }
    }
  }

  /** The fragments whose encoding the receiver cannot mistake for the end of the packet. */
  predicate SafeFrag(f: Frag)
    requires Readable(f)
  {
    f.hexify || (HASH !in Content(f) && !BadRun(Content(f)))
  }

  lemma {:induction false} BodyHasHash(frags: seq<Frag>)
    requires AllReadable(frags)
    ensures HASH !in Body(frags) <==> forall i :: 0 <= i < |frags| ==> SafeFrag(frags[i])
  {
    if frags != [] {
      BodyHasHash(frags[1..]);
      InConcat(HASH, Encode(frags[0].hexify, Content(frags[0])), Body(frags[1..]));
      if frags[0].hexify {
        HexBody(Content(frags[0]));
      } else {
        PlainHash(Content(frags[0]));
      }
      assert forall i :: 1 <= i < |frags| ==> frags[i] == frags[1..][i - 1];
    }
  }

  /**
   * The receiver delimits the body correctly exactly when every plain fragment is free of '#' and
   * of runs that leave seven characters; hexified fragments never do harm.
   */
  lemma Framing(frags: seq<Frag>)
    requires AllReadable(frags)
    ensures UpToHash(Packet(frags)[1..]) == Body(frags) <==> forall i :: 0 <= i < |frags| ==> SafeFrag(frags[i])
  {
    var tail := Trailer(Sum(Body(frags)) % 256);
    Behind(DOLLAR, Body(frags) + tail);
    UpToHashIs(Body(frags), tail);
    BodyHasHash(frags);
  }

  lemma Behind(c: nat, s: seq<nat>)
    ensures ([c] + s)[1..] == s
  {
  }

  predicate StarFreePlain(f: Frag)
    requires Readable(f)
  {
    f.hexify || StarFree(Content(f))
  }

  lemma {:induction false} BodyExpands(frags: seq<Frag>)
    requires AllReadable(frags) && forall i :: 0 <= i < |frags| ==> StarFreePlain(frags[i])
    ensures Expand(Body(frags)) == Message(frags) && NoLeadingStar(Body(frags))
  {
    if frags != [] {
      var f := frags[0];
      BodyExpands(frags[1..]);
      ExpandEncode(f.hexify, Content(f), Body(frags[1..]));
      EncodeNoLeadingStar(f.hexify, Content(f));
    }
  }

  /** Framing, checking and expanding a packet gives back what was sent. */
  lemma PacketRoundTrip(frags: seq<Frag>)
    requires AllReadable(frags)
    requires forall i :: 0 <= i < |frags| ==> SafeFrag(frags[i]) && StarFreePlain(frags[i])
    ensures var p := Packet(frags);
      var body := UpToHash(p[1..]);
      && p[0] == DOLLAR && |p| == |body| + 4 && p[|body| + 1] == HASH
      && Expand(body) == Message(frags)
      && Hex(p[|body| + 2]) >= 0 && Hex(p[|body| + 3]) >= 0
      && Hex(p[|body| + 2]) * 16 + Hex(p[|body| + 3]) == Sum(body) % 256
      && p[|body| + 2] == "0123456789abcdef"[Sum(body) % 256 / 16] as nat
      && p[|body| + 3] == "0123456789abcdef"[Sum(body) % 256 % 16] as nat
  {
    Framing(frags);
    BodyExpands(frags);
    var c := Sum(Body(frags)) % 256;
    HexOfHexChar(c / 16);
    HexOfHexChar(c % 16);
    HexChars(c / 16);
    HexChars(c % 16);
  }

  // ---------------------------------------------------------------- in figures

  /** Character codes. */
  function Codes(s: string): seq<nat> {
    seq(|s|, i requires 0 <= i < |s| => s[i] as nat)
  }

  /** A packet of one plain fragment without runs, given the sum of its bytes. */
  lemma PlainPacket(f: Frag, s: seq<nat>, body: seq<nat>, sum: nat)
    requires Readable(f) && Content(f) == s && Encode(f.hexify, s) == body && Sum(body) % 256 == sum
    ensures Packet([f]) == [36] + (body + [35, HexChar(sum / 16), HexChar(sum % 16)])
  {
    assert [f][1..] == [];
    assert Body([f]) == body + Body([]);
    assert body + [] == body;
  }

  lemma SumOfTwo(a: nat, b: nat)
    ensures Sum([a, b]) == a + b
  {
    assert [a, b][1..] == [b] && [b][1..] == [];
    assert Sum([b]) == b + Sum([]);
  }

  /** The answer "OK" as it is sent. */
  lemma OkPacket()
    ensures Packet([Frag([79, 75], 2, false)]) == Codes("$OK#9a")
  {
    var f, s := Frag([79, 75], 2, false), [79, 75];
    assert Content(f) == s;
    RunIs(s, 1);
    RunIs([75], 1);
    assert s[1..] == [75] && [75][1..] == [];
    assert Encode(false, [75]) == [75] + [];
    assert Encode(false, s) == [79] + [75];
    SumOfTwo(79, 75);
    PlainPacket(f, s, s, 154);
  }

  /** Four zeroes are sent as "0* ": the blank counts three more of them. */
  lemma FourZeroes()
    ensures Encode(false, [48, 48, 48, 48]) == Codes("0* ")
    ensures Expand(Codes("0* ")) == Codes("0000")
  {
    var s := [48, 48, 48, 48];
    RunIs(s, 4);
    assert s[4..] == [];
    assert Encode(false, s) == [48, 42, 32] + [];
    assert Codes("0* ") == [48, 42, 32];
    assert [48, 42, 32][3..] == [];
    assert Expand([48, 42, 32]) == Repeat(48, 4) + [];
  }

  /** Two bytes as text, and the text of one byte in upper case. */
  lemma DigitsInOrder()
    ensures Hexify([0x12, 0xaf]) == Codes("12af")
    ensures GoodPair(Codes("12"), 0) && PairValue(Codes("12"), 0) == 0x12
    ensures GoodPair(Codes("AF"), 0) && PairValue(Codes("AF"), 0) == 0xaf
  {
    var s := [0x12, 0xaf];
    assert s[1..] == [0xaf] && [0xaf][1..] == [];
    assert Hexify([0xaf]) == [97, 102] + [];
    assert Hexify(s) == [49, 50] + [97, 102];
    assert Codes("12") == [49, 50] && Codes("AF") == [65, 70];
  }
}
