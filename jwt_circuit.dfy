/** The input encoding of the JWT circuit helper: limbs of the RSA modulus, the zero-padded
    domain, decimal and hexadecimal field strings, and the checks on the helper's inputs. */
module JwtCircuit {
  import opened Wrappers
  import opened Bytes
  import opened Numerals
  import JwkDecode

  const MaxDomainLength: nat := 64
  const ModulusLimbBits: nat := 120
  const ModulusLimbs: nat := 18
  const PartialDataLength: nat := 1024
  /** Hex digits of one public input after `padStart(64, "0")`. */
  const FieldDigits: nat := 64

  function Pow2(k: nat): (p: nat)
    ensures p >= 1
  {
    PowPositive(2, k);
    Pow(2, k)
  }

  // ---------------------------------------------------------------- limbs

  /** `a / d` on `bigint`: the quotient is truncated toward zero. */
  function TruncDiv(a: int, d: nat): int
    requires d > 0
  {
    if a >= 0 then a / d else -((-a) / d)
  }

  /** What `splitBigIntToLimbs` puts at position i: `(x / 2^(i*w)) & (2^w - 1)`. The
      `bigint` `&` with the low mask keeps the residue modulo 2^w, also for a negative
      quotient (two's complement). */
  function Limb(x: int, w: nat, i: nat): (l: nat)
    ensures l < Pow2(w)
  {
    TruncDiv(x, Pow2(i * w)) % Pow2(w)
  }

  /** `splitBigIntToLimbs(bigInt, byteLength, numLimbs)`; the parameter the source names
      `byteLength` is a width in bits. */
  method SplitBigIntToLimbs(x: int, width: nat, numLimbs: nat) returns (chunks: seq<nat>)
    ensures |chunks| == numLimbs
    ensures forall i :: 0 <= i < numLimbs ==> chunks[i] == Limb(x, width, i) && chunks[i] < Pow2(width)
    ensures 0 <= x < Pow2(width * numLimbs) ==> Recompose(chunks, width) == x
  {
    var mask := Pow2(width) - 1;
    chunks := [];
    for i := 0 to numLimbs
      invariant |chunks| == i
      invariant forall k :: 0 <= k < i ==> chunks[k] == Limb(x, width, k)
    {
      var shift := i * width;
      var chunk := TruncDiv(x, Pow2(shift)) % (mask + 1);
      chunks := chunks + [chunk];
    }
    if 0 <= x < Pow2(width * numLimbs) {
      LimbsRecompose(x, width, chunks);
    }
  }

  /** The number a little-endian sequence of w-bit limbs stands for. */
  function Recompose(limbs: seq<nat>, w: nat): nat
  {
    if limbs == [] then 0 else limbs[0] + Pow2(w) * Recompose(limbs[1..], w)
  }

  lemma MulBelow(d: int, k: int)
    requires d > 0 && d * k < d
    ensures k < 1
  {
  }

  lemma MulAbove(d: int, k: int)
    requires d > 0 && -d < d * k
    ensures k > -1
  {
  }

  lemma DivUnique(x: int, d: int, q: int, r: int)
    requires d > 0 && 0 <= r < d && x == d * q + r
    ensures x / d == q
  {
    var q', r' := x / d, x % d;
    assert d * (q - q') == r' - r;
    MulBelow(d, q - q');
    MulAbove(d, q - q');
  }

  lemma MulMono(p: int, a: int, b: int)
    requires p >= 0 && a <= b
    ensures p * a <= p * b
  {
  }

  lemma DivDiv(x: nat, a: nat, b: nat)
    requires a > 0 && b > 0
    ensures x / (a * b) == (x / a) / b
  {
    var q, r := x / a, x % a;
    var q2, r2 := q / b, q % b;
    assert a * q == a * (b * q2) + a * r2;
    assert a * (b * q2) == (a * b) * q2;
    MulMono(a, r2, b - 1);
    assert a * (b - 1) == a * b - a;
    DivUnique(x, a * b, q2, a * r2 + r);
  }

  /** x < p * m bounds the quotient of x by p below m. */
  lemma QuotientBelow(x: nat, p: nat, m: nat)
    requires p > 0 && x < p * m
    ensures x / p < m
  {
    var q := x / p;
    assert p * (q - m) < 0;
    MulBelow(p, q - m + 1);
  }

  lemma LimbOfNat(x: nat, w: nat, i: nat)
    ensures Limb(x, w, i) == (x / Pow2(i * w)) % Pow2(w)
  {
  }

  /** Limb i + 1 of x is limb i of x shifted down by one limb. */
  lemma LimbShift(x: nat, w: nat, i: nat)
    ensures Limb(x, w, i + 1) == Limb(x / Pow2(w), w, i)
  {
    var p, s := Pow2(w), Pow2(i * w);
    var e := (i + 1) * w;
    assert Pow2(e) == p * s by {
      assert e == w + i * w;
      PowAdd(2, w, i * w);
    }
    assert x / Pow2(e) == (x / p) / s by {
      DivDiv(x, p, s);
    }
    LimbOfNat(x, w, i + 1);
    LimbOfNat(x / p, w, i);
  }

  lemma DivMod(x: nat, p: nat)
    requires p > 0
    ensures x == x % p + p * (x / p)
  {
  }

  lemma HeadLimb(x: nat, w: nat)
    ensures Limb(x, w, 0) == x % Pow2(w)
  {
    assert 0 * w == 0;
    assert Pow2(0) == 1;
  }

  lemma ShiftBound(x: nat, w: nat, n: nat)
    requires n >= 1 && x < Pow2(w * n)
    ensures x / Pow2(w) < Pow2(w * (n - 1))
  {
    var p, m := Pow2(w), Pow2(w * (n - 1));
    assert w * n == w + w * (n - 1);
    PowAdd(2, w, w * (n - 1));
    QuotientBelow(x, p, m);
  }

  lemma TailLimbs(x: nat, w: nat, limbs: seq<nat>)
    requires |limbs| >= 1
    requires forall i :: 0 <= i < |limbs| ==> limbs[i] == Limb(x, w, i)
    ensures forall i :: 0 <= i < |limbs| - 1 ==> limbs[1..][i] == Limb(x / Pow2(w), w, i)
  {
    forall i | 0 <= i < |limbs| - 1 ensures limbs[1..][i] == Limb(x / Pow2(w), w, i) {
      LimbShift(x, w, i);
      assert limbs[1..][i] == limbs[i + 1];
    }
  }

  lemma RecomposeStep(x: nat, w: nat, limbs: seq<nat>)
    requires limbs != []
    requires limbs[0] == x % Pow2(w) && Recompose(limbs[1..], w) == x / Pow2(w)
    ensures Recompose(limbs, w) == x
  {
    DivMod(x, Pow2(w));
  }

  /** Recomposition: w-bit limbs of a number below 2^(w*n) add back up to it. */
  lemma {:induction false} LimbsRecompose(x: nat, w: nat, limbs: seq<nat>)
    requires x < Pow2(w * |limbs|)
    requires forall i :: 0 <= i < |limbs| ==> limbs[i] == Limb(x, w, i)
    ensures Recompose(limbs, w) == x
    decreases |limbs|, 1
  {
    if limbs == [] {
      var e := w * |limbs|;
      assert e == 0;
      assert Pow2(e) == 1;
    } else {
      LimbsRecomposeCons(x, w, limbs);
    }
  }

  lemma {:induction false} LimbsRecomposeCons(x: nat, w: nat, limbs: seq<nat>)
    requires limbs != [] && x < Pow2(w * |limbs|)
    requires forall i :: 0 <= i < |limbs| ==> limbs[i] == Limb(x, w, i)
    ensures Recompose(limbs, w) == x
    decreases |limbs|, 0
  {
    var y := x / Pow2(w);
    var tail := limbs[1..];
    ShiftBound(x, w, |limbs|);
    TailLimbs(x, w, limbs);
    LimbsRecompose(y, w, tail);
    HeadLimb(x, w);
    RecomposeStep(x, w, limbs);
  }

  // ---------------------------------------------------------------- field strings

  /** `"0x" + v.toString(16).padStart(64, "0")`. */
  function FieldHex(v: nat): string
  {
    "0x" + PadStart(ToBase(v, 16), FieldDigits, '0')
  }

  /** A public input as the verifier reads it: "0x" and exactly 64 hex digits. */
  predicate IsField(s: string)
  {
    |s| == 2 + FieldDigits && s[..2] == "0x" && AllDigits(s[2..], 16)
  }

  function FieldValue(s: string): nat
    requires IsField(s)
  {
    ValueIn(s[2..], 16)
  }

  /** A value below 16^64 is written as exactly 64 digits, and reads back as itself. */
  lemma FieldRoundTrip(v: nat)
    requires v < Pow(16, FieldDigits)
    ensures IsField(FieldHex(v)) && FieldValue(FieldHex(v)) == v
  {
    var h := ToBase(v, 16);
    ToBaseLength(v, 16, FieldDigits);
    ToBaseRoundTrip(v, 16);
    PadStartValue(h, FieldDigits, 16);
    assert FieldHex(v)[2..] == PadStart(h, FieldDigits, '0');
  }

  lemma {:induction false} Pow2AsPow16(k: nat)
    ensures Pow2(4 * k) == Pow(16, k)
  {
    if k > 0 {
      Pow2AsPow16(k - 1);
      assert Pow2(4 * k) == 16 * Pow2(4 * (k - 1)) by {
        PowAdd(2, 4, 4 * (k - 1));
        assert Pow(2, 4) == 16;
        assert 4 + 4 * (k - 1) == 4 * k;
      }
    }
  }

  /** Limbs of 120 bits, bytes and a length up to 255 all fit a 64-digit field string. */
  lemma FitsField(v: nat)
    requires v < Pow2(ModulusLimbBits) || v < 256
    ensures v < Pow(16, FieldDigits)
  {
    Pow2AsPow16(30);
    PowMonotone(16, 30, FieldDigits);
    PowMonotone(16, 2, 30);
    assert Pow(16, 2) == 256;
  }

  // ---------------------------------------------------------------- verifyProof

  /** `values.map((s) => "0x" + s.toString(16).padStart(64, "0"))`. */
  function FieldsOf(values: seq<nat>): seq<string>
  {
    seq(|values|, k requires 0 <= k < |values| => FieldHex(values[k]))
  }

  /** Values that fit 64 hex digits come back from their field strings unchanged. */
  lemma FieldsOfRoundTrip(values: seq<nat>)
    requires forall k :: 0 <= k < |values| ==> values[k] < Pow(16, FieldDigits)
    ensures |FieldsOf(values)| == |values|
    ensures forall k :: 0 <= k < |values| ==>
      IsField(FieldsOf(values)[k]) && FieldValue(FieldsOf(values)[k]) == values[k]
  {
    forall k | 0 <= k < |values|
      ensures IsField(FieldsOf(values)[k]) && FieldValue(FieldsOf(values)[k]) == values[k]
    {
      FieldRoundTrip(values[k]);
    }
  }

  function ByteValues(b: seq<byte>): (v: seq<nat>)
    ensures |v| == |b| && forall k :: 0 <= k < |b| ==> v[k] == b[k] as nat
  {
    seq(|b|, k requires 0 <= k < |b| => b[k] as nat)
  }

  /** The field strings of a number's 120-bit limbs read back as those limbs. */
  lemma LimbFields(x: int, limbs: seq<nat>)
    requires |limbs| == ModulusLimbs
    requires forall k :: 0 <= k < ModulusLimbs ==> limbs[k] == Limb(x, ModulusLimbBits, k)
    ensures |FieldsOf(limbs)| == ModulusLimbs
    ensures forall k :: 0 <= k < ModulusLimbs ==>
      IsField(FieldsOf(limbs)[k]) && FieldValue(FieldsOf(limbs)[k]) == Limb(x, ModulusLimbBits, k)
  {
    forall k | 0 <= k < ModulusLimbs
      ensures IsField(FieldsOf(limbs)[k]) && FieldValue(FieldsOf(limbs)[k]) == Limb(x, ModulusLimbBits, k)
    {
      FitsField(limbs[k]);
      FieldRoundTrip(limbs[k]);
    }
  }

  /** The field strings of bytes read back as those bytes. */
  lemma ByteFields(b: seq<byte>)
    ensures |FieldsOf(ByteValues(b))| == |b|
    ensures forall k :: 0 <= k < |b| ==>
      IsField(FieldsOf(ByteValues(b))[k]) && FieldValue(FieldsOf(ByteValues(b))[k]) == b[k] as int
  {
    forall k | 0 <= k < |b|
      ensures IsField(FieldsOf(ByteValues(b))[k]) && FieldValue(FieldsOf(ByteValues(b))[k]) == b[k] as int
    {
      FitsField(b[k] as nat);
      FieldRoundTrip(b[k] as nat);
    }
  }

  lemma Layout(a: seq<string>, b: seq<string>, c: string)
    ensures forall k :: 0 <= k < |a| ==> (a + b + [c])[k] == a[k]
    ensures forall k :: 0 <= k < |b| ==> (a + b + [c])[|a| + k] == b[k]
    ensures (a + b + [c])[|a| + |b|] == c
  {
  }

  const InvalidPublicInputs := "[JWT Circuit] Proof verification failed: invalid public inputs"
  const VerificationFailed := "[JWT Circuit] Proof verification failed: "
  /** The message a JavaScript engine (V8) gives the RangeError of an oversized `set`. */
  const OffsetOutOfBounds := "offset is out of bounds"

  /** The public inputs `verifyProof` hands to the verifier: the 18 limbs of the modulus, the
      64 bytes of the zero-padded domain, then the domain's `length`, each as a field string.
      It throws when the domain is empty or the key is zero; the buffer's `set` throws a
      RangeError when the domain's UTF-8 encoding is longer than 64 bytes, which the
      surrounding `catch` rethrows with the verification-failed prefix. */
  method PublicInputs(domain: string, jwtPubKey: int) returns (r: Result<seq<string>, JsError>)
    ensures domain == [] || jwtPubKey == 0 ==> r == Failure(Thrown(InvalidPublicInputs))
    ensures domain != [] && jwtPubKey != 0 && |Utf8(domain)| > MaxDomainLength ==>
      r == Failure(Thrown(VerificationFailed + OffsetOutOfBounds))
    ensures r.Success? <==> domain != [] && jwtPubKey != 0 && |Utf8(domain)| <= MaxDomainLength
    ensures r.Success? ==> |r.value| == ModulusLimbs + MaxDomainLength + 1
    ensures r.Success? ==> forall k :: 0 <= k < ModulusLimbs ==>
      IsField(r.value[k]) && FieldValue(r.value[k]) == Limb(jwtPubKey, ModulusLimbBits, k)
    ensures r.Success? ==> forall k :: 0 <= k < MaxDomainLength ==>
      IsField(r.value[ModulusLimbs + k]) &&
      FieldValue(r.value[ModulusLimbs + k]) == Padded(Utf8(domain), MaxDomainLength)[k] as int
    ensures r.Success? ==>
      var last := r.value[ModulusLimbs + MaxDomainLength];
      IsField(last) && FieldValue(last) == Utf16Length(domain)
  {
    if domain == [] || jwtPubKey == 0 {
      return Failure(Thrown(InvalidPublicInputs));
    }
    var modulusLimbs := SplitBigIntToLimbs(jwtPubKey, ModulusLimbBits, ModulusLimbs);
    var limbFields := FieldsOf(modulusLimbs);
    var storage := ZeroPad(Utf8(domain), MaxDomainLength);
    if storage.None? {
      return Failure(Thrown(VerificationFailed + OffsetOutOfBounds));
    }
    var bytes := ByteValues(storage.value);
    var byteFields := FieldsOf(bytes);
    var len := Utf16Length(domain);
    var publicInputs := limbFields + byteFields + [FieldHex(len)];
    LimbFields(jwtPubKey, modulusLimbs);
    ByteFields(storage.value);
    Utf16LengthVersusUtf8(domain);
    FitsField(len);
    FieldRoundTrip(len);
    Layout(limbFields, byteFields, FieldHex(len));
    r := Success(publicInputs);
  }

  // ---------------------------------------------------------------- generateProof

  /** `arr` padded to `targetLength` entries with 0, each written as `BigInt(v).toString()`.
      A longer `arr` is kept whole: assigning past the end grows a JavaScript array. */
  method PadToLength(arr: seq<int>, targetLength: nat) returns (r: seq<string>)
    ensures |r| == if |arr| <= targetLength then targetLength else |arr|
    ensures forall i :: 0 <= i < |arr| ==> r[i] == Decimal(arr[i])
    ensures forall i :: |arr| <= i < |r| ==> r[i] == "0"
  {
    var n := if |arr| <= targetLength then targetLength else |arr|;
    var padded := new int[n](_ => 0);
    for idx := 0 to |arr|
      invariant forall i :: 0 <= i < idx ==> padded[i] == arr[i]
      invariant forall i :: |arr| <= i < n ==> padded[i] == 0
    {
      padded[idx] := arr[idx];
    }
    r := [];
    for i := 0 to n
      invariant |r| == i
      invariant forall j :: 0 <= j < i ==> r[j] == Decimal(padded[j])
    {
      r := r + [Decimal(padded[i])];
    }
    assert Decimal(0) == "0";
  }

  function DecimalAll(xs: seq<int>): (r: seq<string>)
    ensures |r| == |xs| && forall i :: 0 <= i < |xs| ==> r[i] == Decimal(xs[i])
  {
    seq(|xs|, i requires 0 <= i < |xs| => Decimal(xs[i]))
  }

  /** The first position of `c` in `s`. */
  function IndexOf(s: string, c: char): (i: nat)
    requires c in s
    ensures i < |s| && s[i] == c && c !in s[..i]
  {
    if s[0] == c then 0 else IndexOf(s[1..], c) + 1
  }

  /** `s.split(sep)` for a one-character separator: the pieces between separators. */
  function Split(s: string, sep: char): (parts: seq<string>)
    ensures |parts| >= 1
    ensures forall i :: 0 <= i < |parts| ==> sep !in parts[i]
    decreases |s|
  {
    if sep !in s then [s]
    else
      var i := IndexOf(s, sep);
      [s[..i]] + Split(s[i + 1..], sep)
  }

  /** `parts.join(sep)`. */
  function Join(parts: seq<string>, sep: char): string
  {
    if parts == [] then ""
    else if |parts| == 1 then parts[0]
    else parts[0] + [sep] + Join(parts[1..], sep)
  }

  lemma JoinCons(a: string, rest: seq<string>, sep: char)
    requires rest != []
    ensures Join([a] + rest, sep) == a + [sep] + Join(rest, sep)
  {
    assert ([a] + rest)[1..] == rest;
  }

  lemma {:induction false} JoinSplit(s: string, sep: char)
    ensures Join(Split(s, sep), sep) == s
    decreases |s|
  {
    if sep in s {
      var i := IndexOf(s, sep);
      var rest := Split(s[i + 1..], sep);
      SplitAtFirst(s, sep, i);
      JoinCons(s[..i], rest, sep);
      JoinSplit(s[i + 1..], sep);
      assert s == s[..i] + [sep] + s[i + 1..];
    }
  }

  /** `idToken.split(".").slice(0, 2).join(".")`: header and payload of the JWT. */
  function SignedData(idToken: string): string
  {
    var parts := Split(idToken, '.');
    Join(parts[..if |parts| < 2 then |parts| else 2], '.')
  }

  lemma SplitAtFirst(s: string, sep: char, i: nat)
    requires sep in s && i == IndexOf(s, sep)
    ensures Split(s, sep) == [s[..i]] + Split(s[i + 1..], sep)
  {
  }

  lemma JoinTwo(a: string, b: string, sep: char)
    ensures Join([a, b], sep) == a + [sep] + b
  {
    assert [a, b][1..] == [b];
  }

  lemma SliceAround(t: string, i: nat, k: nat)
    requires i < k <= |t|
    ensures t[..k] == t[..i] + [t[i]] + t[i + 1..k]
  {
  }

  lemma SignedDataOneDot(t: string, i: nat)
    requires '.' in t && i == IndexOf(t, '.') && '.' !in t[i + 1..]
    ensures SignedData(t) == t
  {
    var rest := t[i + 1..];
    SplitAtFirst(t, '.', i);
    var parts := Split(t, '.');
    assert parts == [t[..i], rest];
    assert parts[..2] == parts;
    assert SignedData(t) == Join([t[..i], rest], '.');
    JoinTwo(t[..i], rest, '.');
    assert t == t[..i] + [t[i]] + rest;
  }

  lemma SplitTwoDots(t: string, i: nat, j: nat)
    requires '.' in t && i == IndexOf(t, '.')
    requires '.' in t[i + 1..] && j == IndexOf(t[i + 1..], '.')
    ensures Split(t, '.') == [t[..i]] + ([t[i + 1..][..j]] + Split(t[i + 1..][j + 1..], '.'))
  {
    SplitAtFirst(t, '.', i);
    SplitAtFirst(t[i + 1..], '.', j);
  }

  lemma SplitTwoFirst(t: string, i: nat, j: nat)
    requires '.' in t && i == IndexOf(t, '.')
    requires '.' in t[i + 1..] && j == IndexOf(t[i + 1..], '.')
    ensures SignedData(t) == Join([t[..i], t[i + 1..][..j]], '.')
  {
    var a, b := t[..i], t[i + 1..][..j];
    var parts := Split(t, '.');
    SplitTwoDots(t, i, j);
    assert |parts| >= 2 && parts[..2] == [a, b] by {
      assert parts[0] == a && parts[1] == b;
    }
  }

  lemma SignedDataTwoDots(t: string, i: nat, j: nat)
    requires '.' in t && i == IndexOf(t, '.')
    requires '.' in t[i + 1..] && j == IndexOf(t[i + 1..], '.')
    ensures SignedData(t) == t[..i + 1 + j]
  {
    var rest := t[i + 1..];
    SplitTwoFirst(t, i, j);
    JoinTwo(t[..i], rest[..j], '.');
    SliceAround(t, i, i + 1 + j);
    assert rest[..j] == t[i + 1..i + 1 + j];
  }

  /** The signed data is the token up to its second '.', or the whole token when it has fewer
      than two. */
  lemma SignedDataBeforeSecondDot(t: string)
    ensures '.' !in t ==> SignedData(t) == t
    ensures '.' in t ==>
      var i := IndexOf(t, '.');
      var rest := t[i + 1..];
      ('.' !in rest ==> SignedData(t) == t) &&
      ('.' in rest ==> SignedData(t) == t[..i + 1 + IndexOf(rest, '.')])
  {
    if '.' in t {
      var i := IndexOf(t, '.');
      if '.' in t[i + 1..] {
        SignedDataTwoDots(t, i, IndexOf(t[i + 1..], '.'));
      } else {
        SignedDataOneDot(t, i);
      }
    }
  }

  /** What `generateInputs` of the noir-jwt package returns, as far as it is used here;
      fields read through `?.`/`??` may be absent. */
  datatype JwtInputs = JwtInputs(
    partialStorage: Option<seq<int>>,
    partialLen: Option<int>,
    partialHash: Option<seq<int>>,
    fullDataLength: Option<int>,
    base64DecodeOffset: int,
    pubkeyModulusLimbs: seq<int>,
    redcParamsLimbs: seq<int>,
    signatureLimbs: seq<int>)

  /** The circuit's input record, every number written in decimal. */
  datatype CircuitInputs = CircuitInputs(
    partialStorage: seq<string>,
    partialLen: int,
    partialHash: seq<string>,
    fullDataLength: string,
    base64DecodeOffset: string,
    modulusLimbs: seq<string>,
    redcParamsLimbs: seq<string>,
    signatureLimbs: seq<string>,
    domainStorage: seq<string>,
    domainLen: string)

  const MissingProofInputs := "[JWT Circuit] Proof generation failed: idToken and jwtPubkey are required"

  function OrEmpty(s: Option<seq<int>>): seq<int>
  {
    if s.Some? then s.value else []
  }

  function OrZero(v: Option<int>): int
  {
    if v.Some? then v.value else 0
  }

  /** The part of `generateProof` before the prover runs: the input checks, the signed data
      (computed, only logged), the zero-padded domain and the circuit's input record built
      from `generateInputs`' result. */
  method PrepareProofInputs(idToken: string, jwtPubkey: Option<JwkDecode.Jwk>, domain: string, jwtInputs: JwtInputs)
    returns (r: Result<CircuitInputs, JsError>)
    ensures idToken == [] || jwtPubkey.None? ==> r == Failure(Thrown(MissingProofInputs))
    ensures idToken != [] && jwtPubkey.Some? && |Utf8(domain)| > MaxDomainLength ==> r == Failure(RangeError)
    ensures r.Success? <==> idToken != [] && jwtPubkey.Some? && |Utf8(domain)| <= MaxDomainLength
    ensures r.Success? ==>
      var storage := OrEmpty(jwtInputs.partialStorage);
      var padded := Padded(Utf8(domain), MaxDomainLength);
      && |r.value.partialStorage| == (if |storage| <= PartialDataLength then PartialDataLength else |storage|)
      && (forall i :: 0 <= i < |storage| ==> r.value.partialStorage[i] == Decimal(storage[i]))
      && (forall i :: |storage| <= i < |r.value.partialStorage| ==> r.value.partialStorage[i] == "0")
      && r.value.partialLen == OrZero(jwtInputs.partialLen)
      && r.value.partialHash == DecimalAll(OrEmpty(jwtInputs.partialHash))
      && r.value.fullDataLength == Decimal(OrZero(jwtInputs.fullDataLength))
      && r.value.base64DecodeOffset == Decimal(jwtInputs.base64DecodeOffset)
      && r.value.modulusLimbs == DecimalAll(jwtInputs.pubkeyModulusLimbs)
      && r.value.redcParamsLimbs == DecimalAll(jwtInputs.redcParamsLimbs)
      && r.value.signatureLimbs == DecimalAll(jwtInputs.signatureLimbs)
      && |r.value.domainStorage| == MaxDomainLength
      && (forall i :: 0 <= i < MaxDomainLength ==> r.value.domainStorage[i] == Decimal(padded[i] as int))
      && r.value.domainLen == Decimal(Utf16Length(domain))
  {
    if idToken == [] || jwtPubkey.None? {
      return Failure(Thrown(MissingProofInputs));
    }
    var signedData := SignedData(idToken);
    var domainBytes := ZeroPad(Utf8(domain), MaxDomainLength);
    if domainBytes.None? {
      return Failure(RangeError);
    }
    var storage := PadToLength(OrEmpty(jwtInputs.partialStorage), PartialDataLength);
    var domainInts := seq(MaxDomainLength, i requires 0 <= i < MaxDomainLength => domainBytes.value[i] as int);
    var domainStorage := PadToLength(domainInts, MaxDomainLength);
    r := Success(CircuitInputs(
      storage,
      OrZero(jwtInputs.partialLen),
      DecimalAll(OrEmpty(jwtInputs.partialHash)),
      Decimal(OrZero(jwtInputs.fullDataLength)),
      Decimal(jwtInputs.base64DecodeOffset),
      DecimalAll(jwtInputs.pubkeyModulusLimbs),
      DecimalAll(jwtInputs.redcParamsLimbs),
      DecimalAll(jwtInputs.signatureLimbs),
      domainStorage,
      Decimal(Utf16Length(domain))));
  }
}
