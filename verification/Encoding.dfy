/** The byte strings that votes sign and request ids hash, and why they cannot be confused. */
module Encoding {
  import opened Common

  /** A variable-length field; Rust lengths fit 64 bits. */
  type Field = b: Bytes | |b| <= U64_MAX

  type Bytes32 = b: Bytes | |b| == 32 witness seq(32, _ => 0)

  type i64 = x: int | -0x8000_0000_0000_0000 <= x <= 0x7FFF_FFFF_FFFF_FFFF

  datatype Vote = Valid | Invalid(reason: string)

  /** A unified-transact verification request. */
  datatype Request = Request(
    requestId: string,
    recipient: Bytes32,
    mint: Option<Bytes32>,
    nullifiers: (Bytes32, Bytes32),
    outputCommitments: (Bytes32, Bytes32),
    root: Bytes32,
    extAmount: i64,
    proof: Field,
    ciphertexts: (string, string),
    timestamp: u64)

  // ---- little-endian numbers and length prefixes ----

  function Pow256(k: nat): nat {
    if k == 0 then 1 else 256 * Pow256(k - 1)
  }

  /** The `k` low bytes of `n`, least significant first. */
  function Le(n: nat, k: nat): (b: Bytes)
    ensures |b| == k
    decreases k
  {
    if k == 0 then [] else [(n % 256) as byte] + Le(n / 256, k - 1)
  }

  function FromLe(b: Bytes): nat {
    if b == [] then 0 else b[0] as int + 256 * FromLe(b[1..])
  }

  lemma {:induction false} LeRoundTrip(n: nat, k: nat)
    requires n < Pow256(k)
    ensures FromLe(Le(n, k)) == n
    ensures k > 0 ==> Le(n, k)[0] as int == n % 256
    decreases k
  {
    if k > 0 {
      LeRoundTrip(n / 256, k - 1);
      assert Le(n, k)[1..] == Le(n / 256, k - 1);
    }
  }

  const WORD_BYTES: nat := 8

  function Le64(n: u64): (b: Bytes)
    ensures |b| == WORD_BYTES
  {
    Le(n, WORD_BYTES)
  }

  lemma Le64Injective(a: u64, b: u64)
    requires Le64(a) == Le64(b)
    ensures a == b
  {
    assert Pow256(8) == U64_MAX + 1;
    LeRoundTrip(a, WORD_BYTES);
    LeRoundTrip(b, WORD_BYTES);
  }

  /** Two's complement. */
  function I64Bits(x: i64): u64 {
    if x >= 0 then x else x + U64_MAX + 1
  }

  function Put(b: Field): Bytes { Le64(|b|) + b }

  lemma SplitPrefix(a: Bytes, x: Bytes, b: Bytes, y: Bytes)
    requires |a| == |b| && a + x == b + y
    ensures a == b && x == y
  {
    assert a == (a + x)[..|a|] && b == (b + y)[..|b|];
    assert x == (a + x)[|a|..] && y == (b + y)[|b|..];
  }

  lemma PutThen(b: Field, x: Bytes)
    ensures Put(b) + x == Le64(|b|) + (b + x)
  {
    hide Le64;
  }

  /** A length-prefixed field can be split off whatever follows it. */
  lemma SplitField(a: Field, x: Bytes, b: Field, y: Bytes)
    requires Put(a) + x == Put(b) + y
    ensures a == b && x == y
  {
    hide Le64;
    PutThen(a, x);
    PutThen(b, y);
    SplitPrefix(Le64(|a|), a + x, Le64(|b|), b + y);
    Le64Injective(|a|, |b|);
    SplitPrefix(a, x, b, y);
  }

  lemma SamePrefix(a: Bytes, x: Bytes, b: Bytes, y: Bytes)
    requires |a| == |b|
    ensures a + x == b + y <==> a == b && x == y
  {
    if a + x == b + y { SplitPrefix(a, x, b, y); }
  }

  lemma SameFields(a: Field, x: Bytes, b: Field, y: Bytes)
    ensures Put(a) + x == Put(b) + y <==> a == b && x == y
  {
    hide Put;
    if Put(a) + x == Put(b) + y { SplitField(a, x, b, y); }
  }

  function Ascii(s: string): (b: Bytes)
    ensures |b| == |s|
  {
    seq(|s|, i requires 0 <= i < |s| => if s[i] as int < 256 then s[i] as int as byte else 0)
  }

  // ---- vote signatures ----

  const VOTE_DOMAIN: Bytes := Ascii("paraloom:transact-vote:v1")

  function VoteBit(v: Vote): Bytes { if v.Valid? then [1] else [0] }

  function SigningBytes(program: Field, cluster: Field, request: Field, validator: Field, vote: Vote, wallet: Field): Bytes {
    VOTE_DOMAIN + (Put(program) + (Put(cluster) + (Put(request) + (Put(validator) + (VoteBit(vote) + Put(wallet))))))
  }

  /** Appends the length and the bytes of a field; `rest` is what is still to come. */
  method PutInto(buf: Bytes, field: Field, ghost rest: Bytes) returns (out: Bytes)
    ensures out == buf + Put(field)
    ensures out + rest == buf + (Put(field) + rest)
  {
    hide Le64;
    out := buf + Le64(|field|);
    out := out + field;
  }

  method TransactVoteSigningBytes(program: Field, cluster: Field, request: Field, validator: Field, vote: Vote, wallet: Field)
    returns (buf: Bytes)
    ensures buf == SigningBytes(program, cluster, request, validator, vote, wallet)
  {
    hide Le64, VOTE_DOMAIN;
    ghost var t5 := VoteBit(vote) + Put(wallet);
    ghost var t4 := Put(validator) + t5;
    ghost var t3 := Put(request) + t4;
    ghost var t2 := Put(cluster) + t3;
    ghost var all := SigningBytes(program, cluster, request, validator, vote, wallet);
    buf := VOTE_DOMAIN;
    assert buf + (Put(program) + t2) == all;
    buf := PutInto(buf, program, t2);
    assert buf + (Put(cluster) + t3) == all;
    buf := PutInto(buf, cluster, t3);
    buf := PutInto(buf, request, t4);
    buf := PutInto(buf, validator, t5);
    assert buf + (VoteBit(vote) + Put(wallet)) == (buf + VoteBit(vote)) + Put(wallet);
    buf := buf + [if vote.Valid? then 1 else 0];
    assert buf + Put(wallet) == buf + (Put(wallet) + []);
    buf := PutInto(buf, wallet, []);
    assert buf + [] == buf;
  }

  /** The signed bytes determine every field, and of the vote exactly its validity. */
  lemma SigningBytesInjective(
    p: Field, c: Field, r: Field, n: Field, v: Vote, w: Field,
    p': Field, c': Field, r': Field, n': Field, v': Vote, w': Field)
    ensures SigningBytes(p, c, r, n, v, w) == SigningBytes(p', c', r', n', v', w')
            <==> p == p' && c == c' && r == r' && n == n' && v.Valid? == v'.Valid? && w == w'
  {
    hide Put, Le64, VOTE_DOMAIN, Ascii;
    var t5, t5' := VoteBit(v) + Put(w), VoteBit(v') + Put(w');
    var t4, t4' := Put(n) + t5, Put(n') + t5';
    var t3, t3' := Put(r) + t4, Put(r') + t4';
    var t2, t2' := Put(c) + t3, Put(c') + t3';
    SameFields(p, t2, p', t2');
    SameFields(c, t3, c', t3');
    SameFields(r, t4, r', t4');
    SameFields(n, t5, n', t5');
    SamePrefix(VoteBit(v), Put(w), VoteBit(v'), Put(w'));
    SamePrefix(VOTE_DOMAIN, Put(p) + t2, VOTE_DOMAIN, Put(p') + t2');
    assert Put(w) + [] == Put(w) && Put(w') + [] == Put(w');
    SameFields(w, [], w', []);
  }

  // ---- reading the signed bytes back ----

  /** The first `n` bytes and what follows them. */
  function TakeBytes(b: Bytes, n: nat): Option<(Bytes, Bytes)> {
    if n <= |b| then Some((b[..n], b[n..])) else None
  }

  /** A length in eight bytes, least significant first, that many bytes, and what follows. */
  function TakeField(b: Bytes): Option<(Bytes, Bytes)> {
    var length := TakeBytes(b, 8);
    if length.None? then None else TakeBytes(length.value.1, FromLe(length.value.0))
  }

  lemma TakeBytesBack(a: Bytes, rest: Bytes)
    ensures TakeBytes(a + rest, |a|) == Some((a, rest))
  {
    SplitPrefix(a, rest, (a + rest)[..|a|], (a + rest)[|a|..]);
  }

  lemma TakeFieldBack(f: Field, rest: Bytes)
    ensures TakeField(Put(f) + rest) == Some((f, rest))
  {
    PutThen(f, rest);
    TakeBytesBack(Le64(|f|), f + rest);
    assert Pow256(8) == U64_MAX + 1;
    LeRoundTrip(|f|, WORD_BYTES);
    TakeBytesBack(f, rest);
  }

  datatype SignedVote = SignedVote(program: Bytes, cluster: Bytes, request: Bytes, validator: Bytes, valid: bool, wallet: Bytes)

  /** What a verifier that follows the format reads out of the bytes: tag, four fields, one byte, one field and no more. */
  function ReadSigned(b: Bytes): Option<SignedVote> {
    var tag := TakeBytes(b, 25);
    if tag.None? || tag.value.0 != Ascii("paraloom:transact-vote:v1") then None else
    var program := TakeField(tag.value.1);
    if program.None? then None else
    var cluster := TakeField(program.value.1);
    if cluster.None? then None else
    var request := TakeField(cluster.value.1);
    if request.None? then None else
    var validator := TakeField(request.value.1);
    if validator.None? then None else
    var bit := TakeBytes(validator.value.1, 1);
    if bit.None? || bit.value.0[0] > 1 then None else
    var wallet := TakeField(bit.value.1);
    if wallet.None? || wallet.value.1 != [] then None else
    Some(SignedVote(program.value.0, cluster.value.0, request.value.0, validator.value.0, bit.value.0[0] == 1, wallet.value.0))
  }

  /** Reading the signed bytes gives back every field in its place. */
  lemma SignedReadsBack(program: Field, cluster: Field, request: Field, validator: Field, vote: Vote, wallet: Field)
    ensures ReadSigned(SigningBytes(program, cluster, request, validator, vote, wallet))
         == Some(SignedVote(program, cluster, request, validator, vote.Valid?, wallet))
  {
    hide Put, TakeField, Ascii, TakeBytes;
    var t5 := VoteBit(vote) + Put(wallet);
    var t4 := Put(validator) + t5;
    var t3 := Put(request) + t4;
    var t2 := Put(cluster) + t3;
    TakeBytesBack(VOTE_DOMAIN, Put(program) + t2);
    TakeFieldBack(program, t2);
    TakeFieldBack(cluster, t3);
    TakeFieldBack(request, t4);
    TakeFieldBack(validator, t5);
    TakeBytesBack(VoteBit(vote), Put(wallet));
    assert Put(wallet) + [] == Put(wallet);
    TakeFieldBack(wallet, []);
  }

  // ---- canonical request ids ----

  const REQUEST_DOMAIN: Bytes := Ascii("paraloom:transact-request:v1")

  function MintTail(mint: Option<Bytes32>): Bytes {
    if mint.Some? then Ascii("spl") + mint.value else []
  }

  function Preimage(r: Request): Bytes {
    REQUEST_DOMAIN + (r.root + (r.recipient + (Le64(I64Bits(r.extAmount)) +
    (r.nullifiers.0 + (r.nullifiers.1 + (r.outputCommitments.0 + (r.outputCommitments.1 +
    (Put(r.proof) + MintTail(r.mint)))))))))
  }

  /** Agreement on everything that defines a settlement. */
  predicate SameSettlement(a: Request, b: Request) {
    && a.root == b.root && a.recipient == b.recipient && a.extAmount == b.extAmount
    && a.nullifiers == b.nullifiers && a.outputCommitments == b.outputCommitments
    && a.proof == b.proof && a.mint == b.mint
  }

  lemma SameMint(a: Option<Bytes32>, b: Option<Bytes32>)
    ensures MintTail(a) == MintTail(b) <==> a == b
  {
    if a.Some? && b.Some? {
      SamePrefix(Ascii("spl"), a.value, Ascii("spl"), b.value);
    }
  }

  /** The hashed bytes determine the settlement, the optional mint included. */
  lemma PreimageInjective(a: Request, b: Request)
    ensures Preimage(a) == Preimage(b) <==> SameSettlement(a, b)
  {
    hide Put, Le64, MintTail, REQUEST_DOMAIN, Ascii;
    var a8, b8 := Put(a.proof) + MintTail(a.mint), Put(b.proof) + MintTail(b.mint);
    var a7, b7 := a.outputCommitments.1 + a8, b.outputCommitments.1 + b8;
    var a6, b6 := a.outputCommitments.0 + a7, b.outputCommitments.0 + b7;
    var a5, b5 := a.nullifiers.1 + a6, b.nullifiers.1 + b6;
    var a4, b4 := a.nullifiers.0 + a5, b.nullifiers.0 + b5;
    var a3, b3 := Le64(I64Bits(a.extAmount)) + a4, Le64(I64Bits(b.extAmount)) + b4;
    var a2, b2 := a.recipient + a3, b.recipient + b3;
    SamePrefix(REQUEST_DOMAIN, a.root + a2, REQUEST_DOMAIN, b.root + b2);
    SamePrefix(a.root, a2, b.root, b2);
    SamePrefix(a.recipient, a3, b.recipient, b3);
    SameAmount(a.extAmount, b.extAmount);
    SamePrefix(Le64(I64Bits(a.extAmount)), a4, Le64(I64Bits(b.extAmount)), b4);
    SamePrefix(a.nullifiers.0, a5, b.nullifiers.0, b5);
    SamePrefix(a.nullifiers.1, a6, b.nullifiers.1, b6);
    SamePrefix(a.outputCommitments.0, a7, b.outputCommitments.0, b7);
    SamePrefix(a.outputCommitments.1, a8, b.outputCommitments.1, b8);
    SameFields(a.proof, MintTail(a.mint), b.proof, MintTail(b.mint));
    SameMint(a.mint, b.mint);
  }

  lemma SameAmount(a: i64, b: i64)
    ensures Le64(I64Bits(a)) == Le64(I64Bits(b)) <==> a == b
  {
    hide Le64;
    if Le64(I64Bits(a)) == Le64(I64Bits(b)) {
      Le64Injective(I64Bits(a), I64Bits(b));
    }
  }

  // ---- reading the hashed bytes back ----

  datatype Settlement = Settlement(
    root: Bytes, recipient: Bytes, extAmount: int, nullifiers: (Bytes, Bytes), outputs: (Bytes, Bytes), proof: Bytes, mint: Option<Bytes>)

  /** Two's complement in eight bytes. */
  function Signed64(b: Bytes): int {
    var n := FromLe(b);
    if n < 0x8000_0000_0000_0000 then n else n - 0x1_0000_0000_0000_0000
  }

  /** No more bytes, or the tag of a token mint and the mint. */
  function ReadMint(b: Bytes): Option<Option<Bytes>> {
    if b == [] then Some(None)
    else if |b| == 35 && b[..3] == Ascii("spl") then Some(Some(b[3..]))
    else None
  }

  /** `n` pieces of 32 bytes each, and what follows. */
  function TakeWords(b: Bytes, n: nat): Option<(seq<Bytes>, Bytes)> {
    if n == 0 then Some(([], b))
    else
      var first := TakeBytes(b, 32);
      if first.None? then None else
      var rest := TakeWords(first.value.1, n - 1);
      if rest.None? then None else Some(([first.value.0] + rest.value.0, rest.value.1))
  }

  lemma TakeWordBack(w: Bytes32, rest: Bytes, n: nat, ws: seq<Bytes>, tail: Bytes)
    requires TakeWords(rest, n) == Some((ws, tail))
    ensures TakeWords(w + rest, n + 1) == Some(([w] + ws, tail))
  {
    TakeBytesBack(w, rest);
  }

  lemma NoWords(rest: Bytes)
    ensures TakeWords(rest, 0) == Some(([], rest))
  {}

  /** Tag, root and recipient, amount, two nullifiers and two outputs, proof, optional mint. */
  function ReadPreimage(b: Bytes): Option<Settlement> {
    var tag := TakeBytes(b, 28);
    if tag.None? || tag.value.0 != Ascii("paraloom:transact-request:v1") then None else
    var head := TakeWords(tag.value.1, 2);
    if head.None? || |head.value.0| != 2 then None else
    var amount := TakeBytes(head.value.1, 8);
    if amount.None? then None else
    var notes := TakeWords(amount.value.1, 4);
    if notes.None? || |notes.value.0| != 4 then None else
    var proof := TakeField(notes.value.1);
    if proof.None? then None else
    var mint := ReadMint(proof.value.1);
    if mint.None? then None else
    var (hs, ns) := (head.value.0, notes.value.0);
    Some(Settlement(hs[0], hs[1], Signed64(amount.value.0), (ns[0], ns[1]), (ns[2], ns[3]), proof.value.0, mint.value))
  }

  function SettlementOf(r: Request): Settlement {
    Settlement(r.root, r.recipient, r.extAmount, r.nullifiers, r.outputCommitments, r.proof,
               if r.mint.Some? then Some(r.mint.value) else None)
  }

  lemma MintReadsBack(mint: Option<Bytes32>)
    ensures ReadMint(MintTail(mint)) == Some(if mint.Some? then Some(mint.value) else None)
  {
    if mint.Some? {
      SplitPrefix(Ascii("spl"), mint.value, MintTail(mint)[..3], MintTail(mint)[3..]);
    }
  }

  lemma AmountReadsBack(x: i64)
    ensures Signed64(Le64(I64Bits(x))) == x
  {
    assert Pow256(8) == U64_MAX + 1;
    LeRoundTrip(I64Bits(x), WORD_BYTES);
  }

  lemma NotesReadBack(a: Bytes32, b: Bytes32, c: Bytes32, d: Bytes32, rest: Bytes)
    ensures TakeWords(a + (b + (c + (d + rest))), 4) == Some(([a, b, c, d], rest))
  {
    hide TakeWords;
    NoWords(rest);
    TakeWordBack(d, rest, 0, [], rest);
    TakeWordBack(c, d + rest, 1, [d] + [], rest);
    TakeWordBack(b, c + (d + rest), 2, [c] + ([d] + []), rest);
    TakeWordBack(a, b + (c + (d + rest)), 3, [b] + ([c] + ([d] + [])), rest);
    assert [a] + ([b] + ([c] + ([d] + []))) == [a, b, c, d];
  }

  lemma HeadReadsBack(a: Bytes32, b: Bytes32, rest: Bytes)
    ensures TakeWords(a + (b + rest), 2) == Some(([a, b], rest))
  {
    hide TakeWords;
    NoWords(rest);
    TakeWordBack(b, rest, 0, [], rest);
    TakeWordBack(a, b + rest, 1, [b] + [], rest);
    assert [a] + ([b] + []) == [a, b];
  }

  /** Reading the hashed bytes gives back everything that defines the settlement, each in its place. */
  lemma PreimageReadsBack(r: Request)
    ensures ReadPreimage(Preimage(r)) == Some(SettlementOf(r))
  {
    hide Put, TakeField, Ascii, TakeBytes, TakeWords, ReadMint, MintTail, Signed64, Le64;
    var tail := Put(r.proof) + MintTail(r.mint);
    var notes := r.nullifiers.0 + (r.nullifiers.1 + (r.outputCommitments.0 + (r.outputCommitments.1 + tail)));
    var amount := Le64(I64Bits(r.extAmount));
    TakeBytesBack(REQUEST_DOMAIN, r.root + (r.recipient + (amount + notes)));
    HeadReadsBack(r.root, r.recipient, amount + notes);
    TakeBytesBack(amount, notes);
    AmountReadsBack(r.extAmount);
    NotesReadBack(r.nullifiers.0, r.nullifiers.1, r.outputCommitments.0, r.outputCommitments.1, tail);
    TakeFieldBack(r.proof, MintTail(r.mint));
    MintReadsBack(r.mint);
  }

  const HEX: string := "0123456789abcdef"

  /** Two digits a byte, the high half first. */
  function HexEncode(b: Bytes): (s: string)
    ensures |s| == 2 * |b|
  {
    seq(2 * |b|, i requires 0 <= i < 2 * |b| => if i % 2 == 0 then HEX[b[i / 2] as int / 16] else HEX[b[i / 2] as int % 16])
  }

  lemma HexInjective(a: Bytes, b: Bytes)
    requires HexEncode(a) == HexEncode(b)
    ensures a == b
  {
    var s, t := HexEncode(a), HexEncode(b);
    assert |a| == |b|;
    forall k | 0 <= k < |a| ensures a[k] == b[k] {
      assert s[2 * k] == t[2 * k] && s[2 * k + 1] == t[2 * k + 1];
      HexDigit(a[k] as int / 16, b[k] as int / 16);
      HexDigit(a[k] as int % 16, b[k] as int % 16);
    }
  }

  lemma HexDigit(i: nat, j: nat)
    requires i < 16 && j < 16 && HEX[i] == HEX[j]
    ensures i == j
  {}

  function DigitValue(c: char): int {
    if '0' <= c <= '9' then c as int - '0' as int else c as int - 'a' as int + 10
  }

  /** The two digits of a byte, read as a number to the base sixteen, give the byte back. */
  lemma HexReadsBack(b: Bytes, k: nat)
    requires k < |b|
    ensures 16 * DigitValue(HexEncode(b)[2 * k]) + DigitValue(HexEncode(b)[2 * k + 1]) == b[k] as int
  {
    var s := HexEncode(b);
    assert s[2 * k] == HEX[b[k] as int / 16] && s[2 * k + 1] == HEX[b[k] as int % 16];
    DigitReadsBack(b[k] as int / 16);
    DigitReadsBack(b[k] as int % 16);
  }

  lemma DigitReadsBack(i: nat)
    requires i < 16
    ensures DigitValue(HEX[i]) == i
  {}

  /** SHA-256, kept as an arbitrary function. */
  type Sha = Bytes -> Bytes32

  function CanonicalId(sha: Sha, r: Request): string {
    "transact-" + HexEncode(sha(Preimage(r)))
  }

  /** The id is the word "transact-" and the digest of the hashed bytes in hexadecimal. */
  lemma CanonicalIdReadsBack(sha: Sha, r: Request, k: nat)
    requires k < 32
    ensures var id := CanonicalId(sha, r);
            && |id| == 73 && id[..9] == "transact-"
            && 16 * DigitValue(id[9 + 2 * k]) + DigitValue(id[10 + 2 * k]) == sha(Preimage(r))[k] as int
  {
    hide Preimage, DigitValue, HexEncode;
    HexReadsBack(sha(Preimage(r)), k);
  }

  /** The two requests hash to the same digest although they describe different settlements. */
  ghost predicate DigestCollision(sha: Sha, a: Request, b: Request) {
    Preimage(a) != Preimage(b) && sha(Preimage(a)) == sha(Preimage(b))
  }

  /** Requests share their canonical id iff they are the same settlement, short of a hash collision. */
  lemma CanonicalIdBindsSettlement(sha: Sha, a: Request, b: Request)
    ensures CanonicalId(sha, a) == CanonicalId(sha, b) <==> SameSettlement(a, b) || DigestCollision(sha, a, b)
  {
    PreimageInjective(a, b);
    hide Preimage;
    var ha, hb := HexEncode(sha(Preimage(a))), HexEncode(sha(Preimage(b)));
    if CanonicalId(sha, a) == CanonicalId(sha, b) {
      assert ha == CanonicalId(sha, a)[9..] && hb == CanonicalId(sha, b)[9..];
      HexInjective(sha(Preimage(a)), sha(Preimage(b)));
    }
  }
}
