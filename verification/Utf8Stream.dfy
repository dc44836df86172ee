/** Lossy UTF-8 decoding, one-shot and streaming.

    Well-formedness is Table 3-7 of the Unicode Standard (section 4 of RFC 3629);
    an ill-formed part is replaced by U+FFFD once per maximal subpart (section 3.9).
 */
module Utf8 {
  import opened ByteStrings

  /** Number of bytes in a well-formed sequence that starts with `b`; 0 if none does. */
  function SequenceLength(b: byte): (n: nat) {
    if b <= 0x7F then 1
    else if 0xC2 <= b <= 0xDF then 2
    else if 0xE0 <= b <= 0xEF then 3
    else if 0xF0 <= b <= 0xF4 then 4
    else 0
  }

  predicate Continuation(b: byte) {
    0x80 <= b <= 0xBF
  }

  /** The second byte, which Table 3-7 restricts further after E0, ED, F0 and F4. */
  predicate SecondByte(first: byte, second: byte) {
    if first == 0xE0 then 0xA0 <= second <= 0xBF
    else if first == 0xED then 0x80 <= second <= 0x9F
    else if first == 0xF0 then 0x90 <= second <= 0xBF
    else if first == 0xF4 then 0x80 <= second <= 0x8F
    else Continuation(second)
  }

  /** `s` encodes exactly one scalar value. */
  predicate WellFormed(s: bytes) {
    && s != []
    && |s| == SequenceLength(s[0])
    && (|s| >= 2 ==> SecondByte(s[0], s[1]))
    && (|s| >= 3 ==> Continuation(s[2]))
    && (|s| >= 4 ==> Continuation(s[3]))
  }

  /** `s` starts some well-formed sequence without being all of it. */
  ghost predicate ProperPrefix(s: bytes) {
    s != [] && exists w :: WellFormed(w) && s < w
  }

  ghost predicate StartsWellFormed(s: bytes) {
    ProperPrefix(s) || WellFormed(s)
  }

  /** What a byte string starts with. */
  datatype Scanned =
    | Scalar(length: nat)     // a well-formed sequence
    | Broken(subpart: nat)    // a maximal subpart that nothing can complete
    | Truncated               // a prefix that more input could complete

  function Scan(s: bytes): (r: Scanned)
    requires s != []
    ensures r.Scalar? ==> 1 <= r.length <= |s| && r.length <= 4
    ensures r.Broken? ==> 1 <= r.subpart <= |s| && r.subpart <= 3
    ensures r.Truncated? ==> |s| <= 3
  {
    var n := SequenceLength(s[0]);
    if n == 0 then Broken(1)
    else if n == 1 then Scalar(1)
    else if |s| == 1 then Truncated
    else if !SecondByte(s[0], s[1]) then Broken(1)
    else if n == 2 then Scalar(2)
    else if |s| == 2 then Truncated
    else if !Continuation(s[2]) then Broken(2)
    else if n == 3 then Scalar(3)
    else if |s| == 3 then Truncated
    else if !Continuation(s[3]) then Broken(3)
    else Scalar(4)
  }

  /** `std::str::from_utf8`: success, or where it stopped and how much is beyond repair. */
  datatype Utf8Check = Valid | Invalid(validUpTo: nat, errorLen: Option<nat>)

  function FromUtf8(s: bytes): (r: Utf8Check)
    ensures r.Invalid? ==> r.validUpTo < |s|
    ensures r.Invalid? && r.errorLen.Some? ==> 1 <= r.errorLen.value <= |s| - r.validUpTo
  {
    if s == [] then Valid
    else
      match Scan(s)
      case Broken(n) => Invalid(0, Some(n))
      case Truncated => Invalid(0, None)
      case Scalar(n) =>
        match FromUtf8(s[n..])
        case Valid => Valid
        case Invalid(upTo, errorLen) => Invalid(n + upTo, errorLen)
  }

  predicate IsText(s: bytes) {
    FromUtf8(s).Valid?
  }

  /** U+FFFD, the replacement character. */
  const REPLACEMENT: bytes := [0xEF, 0xBF, 0xBD]

  /** `String::from_utf8_lossy`. */
  function Lossy(s: bytes): (r: bytes) {
    if s == [] then []
    else
      match Scan(s)
      case Scalar(n) => s[..n] + Lossy(s[n..])
      case Broken(n) => REPLACEMENT + Lossy(s[n..])
      case Truncated => REPLACEMENT
  }

  /** Decodes as far as possible, keeping back a sequence that more input could complete. */
  function Drain(s: bytes): (r: (bytes, bytes)) {
    if s == [] then ([], [])
    else
      match Scan(s)
      case Truncated => ([], s)
      case Scalar(n) =>
        var (text, rest) := Drain(s[n..]);
        (s[..n] + text, rest)
      case Broken(n) =>
        var (text, rest) := Drain(s[n..]);
        (REPLACEMENT + text, rest)
  }

  // ---- The scanner finds what the standard defines ----

  function Completion(s: bytes): (w: bytes)
    requires s != [] && Scan(s).Truncated?
    ensures WellFormed(w) && s < w
  {
    var n := SequenceLength(s[0]);
    var second: byte := if s[0] == 0xE0 then 0xA0 else if s[0] == 0xF0 then 0x90 else 0x80;
    if |s| == 1 then
      if n == 2 then s + [second] else if n == 3 then s + [second, 0x80] else s + [second, 0x80, 0x80]
    else if |s| == 2 then
      if n == 3 then s + [0x80] else s + [0x80, 0x80]
    else s + [0x80]
  }

  lemma ScalarMeaning(s: bytes, n: nat)
    requires s != [] && n <= |s|
    ensures Scan(s) == Scalar(n) <==> WellFormed(s[..n])
  {
  }

  lemma TruncatedMeaning(s: bytes)
    requires s != []
    ensures Scan(s).Truncated? <==> ProperPrefix(s)
  {
    if Scan(s).Truncated? {
      var w := Completion(s);
      assert s < w;
    }
    if ProperPrefix(s) {
      var w :| WellFormed(w) && s < w;
      assert s[0] == w[0] && (|s| >= 2 ==> s[1] == w[1]) && (|s| >= 3 ==> s[2] == w[2]);
    }
  }

  /** A broken part is one unusable byte or the longest start of a well-formed sequence
      that the input continues wrongly, and only such input is broken. */
  lemma BrokenMeaning(s: bytes, n: nat)
    requires s != [] && 1 <= n <= |s|
    ensures Scan(s) == Broken(n) <==>
            || (n == 1 && !StartsWellFormed(s[..1]))
            || (n < |s| && ProperPrefix(s[..n]) && !StartsWellFormed(s[..n + 1]))
  {
    TruncatedMeaning(s[..n]);
    ScalarMeaning(s[..n], n);
    assert s[..n][..n] == s[..n];
    if n < |s| {
      TruncatedMeaning(s[..n + 1]);
      ScalarMeaning(s[..n + 1], n + 1);
      assert s[..n + 1][..n + 1] == s[..n + 1];
    }
  }

  // ---- The table against the bits ----

  predicate IsScalar(c: nat) {
    c <= 0xD7FF || 0xE000 <= c <= 0x10FFFF
  }

  /** The bits of a scalar value distributed over its bytes (Table 3-6 of the Unicode Standard). */
  function EncodeScalar(c: nat): (s: bytes)
    requires IsScalar(c)
  {
    var q1 := c / 64;
    var q2 := q1 / 64;
    var q3 := q2 / 64;
    if c < 0x80 then [c]
    else if c < 0x800 then [0xC0 + q1, 0x80 + c % 64]
    else if c < 0x1_0000 then [0xE0 + q2, 0x80 + q1 % 64, 0x80 + c % 64]
    else [0xF0 + q3, 0x80 + q2 % 64, 0x80 + q1 % 64, 0x80 + c % 64]
  }

  /** The bits of `b` above the marker `base`. */
  function Payload(b: byte, base: nat): (n: nat)
    requires base <= b
  {
    b - base
  }

  function ScalarOf(s: bytes): (c: nat)
    requires WellFormed(s)
  {
    if |s| == 1 then s[0]
    else if |s| == 2 then 64 * Payload(s[0], 0xC0) + Payload(s[1], 0x80)
    else if |s| == 3 then 64 * (64 * Payload(s[0], 0xE0) + Payload(s[1], 0x80)) + Payload(s[2], 0x80)
    else 64 * (64 * (64 * Payload(s[0], 0xF0) + Payload(s[1], 0x80)) + Payload(s[2], 0x80)) + Payload(s[3], 0x80)
  }

  lemma EncodedIsWellFormed(c: nat)
    requires IsScalar(c)
    ensures WellFormed(EncodeScalar(c)) && ScalarOf(EncodeScalar(c)) == c
  {
    var q1 := c / 64;
    var q2 := q1 / 64;
    var q3 := q2 / 64;
    assert c == 64 * q1 + c % 64 && q1 == 64 * q2 + q1 % 64 && q2 == 64 * q3 + q2 % 64;
    if c < 0x80 {
    } else if c < 0x800 {
    } else if c < 0x1_0000 {
    } else {
    }
  }

  lemma DivideByShift(q: nat, r: nat)
    requires r < 64
    ensures (64 * q + r) / 64 == q && (64 * q + r) % 64 == r
  {
  }

  lemma WellFormedIsEncoded(s: bytes)
    requires WellFormed(s)
    ensures IsScalar(ScalarOf(s)) && EncodeScalar(ScalarOf(s)) == s
  {
    if |s| == 2 {
      DivideByShift(Payload(s[0], 0xC0), Payload(s[1], 0x80));
    } else if |s| == 3 {
      var top := 64 * Payload(s[0], 0xE0) + Payload(s[1], 0x80);
      DivideByShift(Payload(s[0], 0xE0), Payload(s[1], 0x80));
      DivideByShift(top, Payload(s[2], 0x80));
    } else if |s| == 4 {
      var top := 64 * Payload(s[0], 0xF0) + Payload(s[1], 0x80);
      DivideByShift(Payload(s[0], 0xF0), Payload(s[1], 0x80));
      DivideByShift(top, Payload(s[2], 0x80));
      DivideByShift(64 * top + Payload(s[2], 0x80), Payload(s[3], 0x80));
    }
  }

  /** The table admits exactly the encodings of scalar values: nothing overlong, no surrogate, nothing
      beyond U+10FFFF. */
  lemma WellFormedMeans(s: bytes)
    ensures WellFormed(s) <==> exists c :: IsScalar(c) && EncodeScalar(c) == s
  {
    hide EncodeScalar, ScalarOf, WellFormed;
    if WellFormed(s) {
      WellFormedIsEncoded(s);
    }
    if c :| IsScalar(c) && EncodeScalar(c) == s {
      EncodedIsWellFormed(c);
    }
  }

  lemma ReplacementIsFffd()
    ensures EncodeScalar(0xFFFD) == REPLACEMENT
  {
  }

  ghost predicate Encodes(s: bytes, cs: seq<nat>)
    decreases cs
  {
    if cs == [] then s == []
    else IsScalar(cs[0]) && EncodeScalar(cs[0]) <= s && Encodes(s[|EncodeScalar(cs[0])|..], cs[1..])
  }

  /** Text is exactly what encodes some sequence of scalar values. */
  lemma {:induction false} TextMeans(s: bytes)
    ensures IsText(s) <==> exists cs :: Encodes(s, cs)
  {
    hide Scan, EncodeScalar, WellFormed;
    if s == [] {
      assert Encodes(s, []);
    } else {
      if IsText(s) {
        var n := Scan(s).length;
        TextMeans(s[n..]);
        var cs :| Encodes(s[n..], cs);
        TextWitness(s, n, cs);
      }
      if cs :| Encodes(s, cs) {
        var n := |EncodeScalar(cs[0])|;
        FirstEncoded(s, cs);
        TextMeans(s[n..]);
      }
    }
  }

  lemma FirstEncoded(s: bytes, cs: seq<nat>)
    requires s != [] && Encodes(s, cs)
    ensures cs != [] && IsScalar(cs[0])
    ensures var n := |EncodeScalar(cs[0])|; n <= |s| && Scan(s) == Scalar(n) && Encodes(s[n..], cs[1..])
  {
    hide Scan, EncodeScalar, WellFormed;
    var w := EncodeScalar(cs[0]);
    EncodedIsWellFormed(cs[0]);
    ScalarMeaning(s, |w|);
    assert s[..|w|] == w;
  }

  lemma TextWitness(s: bytes, n: nat, cs: seq<nat>)
    requires s != [] && Scan(s) == Scalar(n) && Encodes(s[n..], cs)
    ensures exists ds :: Encodes(s, ds)
  {
    hide Scan, EncodeScalar, WellFormed;
    ScalarMeaning(s, n);
    WellFormedIsEncoded(s[..n]);
    var c := ScalarOf(s[..n]);
    assert ([c] + cs)[1..] == cs && EncodeScalar(c) == s[..n] <= s;
    assert Encodes(s, [c] + cs);
  }

  /** Lossy decoding, said without the scanner: a character is kept, an unfinished end and each
      maximal subpart that goes on wrongly become U+FFFD. */
  lemma LossyMeans(s: bytes, n: nat)
    requires s != [] && 1 <= n <= |s|
    ensures WellFormed(s[..n]) ==> Lossy(s) == s[..n] + Lossy(s[n..])
    ensures ProperPrefix(s) ==> Lossy(s) == EncodeScalar(0xFFFD)
    ensures (n == 1 && !StartsWellFormed(s[..1])) || (n < |s| && ProperPrefix(s[..n]) && !StartsWellFormed(s[..n + 1])) ==>
              Lossy(s) == EncodeScalar(0xFFFD) + Lossy(s[n..])
  {
    hide Scan, WellFormed, ProperPrefix, StartsWellFormed, EncodeScalar;
    ReplacementIsFffd();
    ScalarMeaning(s, n);
    TruncatedMeaning(s);
    BrokenMeaning(s, n);
  }

  /** Whatever comes in, text comes out. */
  lemma {:induction false} LossyIsText(s: bytes)
    ensures IsText(Lossy(s))
  {
    assert IsText(REPLACEMENT) by {
      assert Scan(REPLACEMENT) == Scalar(3) && REPLACEMENT[3..] == [];
    }
    hide Scan;
    if s != [] {
      match Scan(s)
      case Truncated =>
      case Broken(n) =>
        LossyIsText(s[n..]);
        TextAppend(REPLACEMENT, Lossy(s[n..]));
      case Scalar(n) =>
        LossyIsText(s[n..]);
        ScanOfPrefix(s, n);
        assert s[..n][n..] == [];
        TextAppend(s[..n], Lossy(s[n..]));
    }
  }

  // ---- More input never changes what has been recognised ----

  lemma ScanExtends(s: bytes, t: bytes)
    requires s != [] && !Scan(s).Truncated?
    ensures Scan(s + t) == Scan(s)
  {
  }

  lemma {:induction false} LossyAfterText(s: bytes, t: bytes)
    requires IsText(s)
    ensures Lossy(s + t) == s + Lossy(t)
  {
    hide Scan;
    if s == [] {
      assert s + t == t;
    } else {
      ScanExtends(s, t);
      var n := Scan(s).length;
      SplitAppend(s, t, n);
      LossyAfterText(s[n..], t);
    }
  }

  lemma {:induction false} DrainAfterText(s: bytes, t: bytes)
    requires IsText(s)
    ensures Drain(s + t).0 == s + Drain(t).0 && Drain(s + t).1 == Drain(t).1
  {
    hide Scan;
    if s == [] {
      assert s + t == t;
    } else {
      ScanExtends(s, t);
      var n := Scan(s).length;
      SplitAppend(s, t, n);
      DrainAfterText(s[n..], t);
    }
  }

  /** Joining two texts gives a text, and a text can only be followed by a text. */
  lemma {:induction false} TextAppend(s: bytes, t: bytes)
    requires IsText(s)
    ensures IsText(s + t) <==> IsText(t)
  {
    hide Scan;
    if s == [] {
      assert s + t == t;
    } else {
      ScanExtends(s, t);
      var n := Scan(s).length;
      SplitAppend(s, t, n);
      TextAppend(s[n..], t);
    }
  }

  lemma SplitAppend(s: bytes, t: bytes, n: nat)
    requires n <= |s|
    ensures (s + t)[..n] == s[..n] && (s + t)[n..] == s[n..] + t && s == s[..n] + s[n..]
  {
  }

  lemma {:induction false} ValidUpTo(s: bytes)
    requires FromUtf8(s).Invalid?
    ensures var c := FromUtf8(s);
            && IsText(s[..c.validUpTo])
            && (c.errorLen.None? <==> Scan(s[c.validUpTo..]).Truncated?)
            && (c.errorLen.Some? ==> Scan(s[c.validUpTo..]) == Broken(c.errorLen.value))
  {
    var c := FromUtf8(s);
    if Scan(s).Scalar? {
      var n := Scan(s).length;
      ValidUpTo(s[n..]);
      var upTo := FromUtf8(s[n..]).validUpTo;
      assert s[n..][upTo..] == s[c.validUpTo..];
      assert s[..c.validUpTo][n..] == s[n..][..upTo];
      ScanOfPrefix(s, c.validUpTo);
    }
  }

  lemma ScanOfPrefix(s: bytes, k: nat)
    requires s != [] && Scan(s).Scalar? && Scan(s).length <= k <= |s|
    ensures Scan(s[..k]) == Scan(s)
  {
  }

  /** One pass over everything or decode-and-keep-back then continue: the same text. */
  lemma {:induction false} DrainThenLossy(s: bytes, t: bytes)
    ensures Lossy(s + t) == Drain(s).0 + Lossy(Drain(s).1 + t)
  {
    hide Scan;
    if s == [] {
      assert s + t == t;
    } else if !Scan(s).Truncated? {
      ScanExtends(s, t);
      var n := if Scan(s).Scalar? then Scan(s).length else Scan(s).subpart;
      assert (s + t)[n..] == s[n..] + t && (s + t)[..n] == s[..n];
      DrainThenLossy(s[n..], t);
    }
  }

  lemma {:induction false} DrainKeepsBack(s: bytes)
    ensures Drain(s).1 == [] || (Scan(Drain(s).1).Truncated? && ProperPrefix(Drain(s).1))
    ensures |Drain(s).1| <= 3
  {
    if s != [] {
      match Scan(s)
      case Truncated => TruncatedMeaning(s);
      case Scalar(n) => DrainKeepsBack(s[n..]);
      case Broken(n) => DrainKeepsBack(s[n..]);
    }
  }

  /** A broken part on its own is one replacement character. */
  lemma BrokenAlone(s: bytes, n: nat)
    requires s != [] && Scan(s) == Broken(n)
    ensures Lossy(s[..n]) == REPLACEMENT
  {
    if n == 1 {
      assert Lossy(s[..1][1..]) == [];
    }
  }

  lemma {:induction false} LossyKeepsText(s: bytes)
    requires IsText(s)
    ensures Lossy(s) == s
  {
    LossyAfterText(s, []);
    assert s + [] == s;
  }

  lemma DrainText(s: bytes)
    requires IsText(s)
    ensures Drain(s).0 == s && Drain(s).1 == []
  {
    DrainAfterText(s, []);
    assert s + [] == s;
  }

  /** What a failed check tells the decoder about the text it may emit now. */
  lemma DrainError(s: bytes)
    requires FromUtf8(s).Invalid?
    ensures var Invalid(upTo, errorLen) := FromUtf8(s);
            match errorLen
            case None => Drain(s).0 == s[..upTo] && Drain(s).1 == s[upTo..]
            case Some(n) =>
              var (text, rest) := Drain(s[upTo + n..]);
              Drain(s).0 == s[..upTo] + Lossy(s[upTo..upTo + n]) + text && Drain(s).1 == rest
  {
    hide Scan, Lossy, FromUtf8;
    var Invalid(upTo, errorLen) := FromUtf8(s);
    ValidUpTo(s);
    var bad := s[upTo..];
    DrainAfterText(s[..upTo], bad);
    assert s == s[..upTo] + bad;
    if errorLen.Some? {
      var n := errorLen.value;
      BrokenAlone(bad, n);
      assert bad[..n] == s[upTo..upTo + n] && bad[n..] == s[upTo + n..];
    }
  }

  // ---- The decoder and its runs ----

  class StreamDecoder {
    var pending: bytes

    constructor ()
      ensures pending == []
    {
      pending := [];
    }

    method Push(chunk: bytes) returns (output: bytes)
      modifies this
      ensures output == Drain(old(pending) + chunk).0 && pending == Drain(old(pending) + chunk).1
    {
      hide Scan, Lossy, FromUtf8, Drain;
      pending := pending + chunk;
      ghost var fed := pending;
      output := [];
      while true
        invariant Drain(fed).0 == output + Drain(pending).0 && Drain(fed).1 == Drain(pending).1
        decreases |pending|
      {
        match FromUtf8(pending) {
          case Valid =>
            DrainText(pending);
            output := output + pending;
            pending := [];
            break;
          case Invalid(validUpTo, errorLen) =>
            DrainError(pending);
            if validUpTo > 0 {
              output := output + pending[..validUpTo];
            }
            if errorLen.Some? {
              output := output + Lossy(pending[validUpTo..validUpTo + errorLen.value]);
              pending := pending[validUpTo + errorLen.value..];
            } else {
              pending := pending[validUpTo..];
              assert Drain(fed).0 == output && Drain(fed).1 == pending;
              break;
            }
        }
      }
    }

    method Finish() returns (output: bytes)
      modifies this
      ensures output == Lossy(old(pending)) && pending == []
    {
      output := Lossy(pending);
      pending := [];
    }
  }

  /** The pending buffer after pushing `chunks` in order. */
  function Kept(pending: bytes, chunks: seq<bytes>): (r: bytes)
    decreases chunks
  {
    if chunks == [] then pending else Kept(Drain(pending + chunks[0]).1, chunks[1..])
  }

  /** Everything the pushes returned, in order. */
  function Emitted(pending: bytes, chunks: seq<bytes>): (r: bytes)
    decreases chunks
  {
    if chunks == [] then []
    else Drain(pending + chunks[0]).0 + Emitted(Drain(pending + chunks[0]).1, chunks[1..])
  }

  /** However the input is cut into chunks, the pushes followed by `Finish` produce exactly
      the lossy decoding of the whole input. */
  lemma {:induction false} StreamingIsOneShot(pending: bytes, chunks: seq<bytes>)
    ensures Emitted(pending, chunks) + Lossy(Kept(pending, chunks)) == Lossy(pending + Flatten(chunks))
    decreases chunks
  {
    hide Scan, Lossy, Drain;
    if chunks == [] {
      assert pending + Flatten(chunks) == pending;
    } else {
      var s := pending + chunks[0];
      StreamingIsOneShot(Drain(s).1, chunks[1..]);
      DrainThenLossy(s, Flatten(chunks[1..]));
      assert pending + Flatten(chunks) == s + Flatten(chunks[1..]);
    }
  }

  /** Between pushes the decoder holds nothing, or at most three bytes that still start a
      well-formed sequence. */
  lemma {:induction false} PendingIsShort(pending: bytes, chunks: seq<bytes>)
    requires chunks != []
    ensures var kept := Kept(pending, chunks); kept == [] || (ProperPrefix(kept) && |kept| <= 3)
    decreases chunks
  {
    if |chunks| == 1 {
      DrainKeepsBack(pending + chunks[0]);
      assert Kept(Drain(pending + chunks[0]).1, chunks[1..]) == Drain(pending + chunks[0]).1;
    } else {
      PendingIsShort(Drain(pending + chunks[0]).1, chunks[1..]);
    }
  }

  /** Text cut anywhere, even inside a character, comes out unchanged. */
  lemma TextSurvivesChunking(chunks: seq<bytes>)
    requires IsText(Flatten(chunks))
    ensures Emitted([], chunks) + Lossy(Kept([], chunks)) == Flatten(chunks)
  {
    StreamingIsOneShot([], chunks);
    assert [] + Flatten(chunks) == Flatten(chunks);
    LossyKeepsText(Flatten(chunks));
  }
}
