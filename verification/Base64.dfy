/** Unpadded base64url (section 5 of RFC 4648), with Go's lenient decoder: line
    breaks are skipped, and the unused low bits of the last character are ignored. */
module Base64 {

  import opened Shared

  type Sextet = v: int | 0 <= v < 64

  // ------------------------------------------------------------------
  // Bytes and groups of six bits
  // ------------------------------------------------------------------

  function FirstSextet(x: Byte): Sextet { x / 4 }

  function MiddleSextet(x: Byte, y: Byte): Sextet { (x % 4) * 16 + y / 16 }

  function LaterSextet(x: Byte, y: Byte): Sextet { (x % 16) * 4 + y / 64 }

  function LastSextet(x: Byte): Sextet { x % 64 }

  function Sextets(b: Bytes): seq<Sextet> {
    if |b| == 0 then []
    else if |b| == 1 then [FirstSextet(b[0]), MiddleSextet(b[0], 0)]
    else if |b| == 2 then [FirstSextet(b[0]), MiddleSextet(b[0], b[1]), LaterSextet(b[1], 0)]
    else [FirstSextet(b[0]), MiddleSextet(b[0], b[1]), LaterSextet(b[1], b[2]), LastSextet(b[2])]
         + Sextets(b[3..])
  }

  function FirstByte(v: Sextet, w: Sextet): Byte { v * 4 + w / 16 }

  function SecondByte(v: Sextet, w: Sextet): Byte { (v % 16) * 16 + w / 4 }

  function ThirdByte(v: Sextet, w: Sextet): Byte { (v % 4) * 64 + w }

  /** A single left-over group is an error. */
  function FromSextets(v: seq<Sextet>): Option<Bytes> {
    if |v| == 0 then Some([])
    else if |v| == 1 then None
    else if |v| == 2 then Some([FirstByte(v[0], v[1])])
    else if |v| == 3 then Some([FirstByte(v[0], v[1]), SecondByte(v[1], v[2])])
    else
      match FromSextets(v[4..])
      case None => None
      case Some(rest) =>
        Some([FirstByte(v[0], v[1]), SecondByte(v[1], v[2]), ThirdByte(v[2], v[3])] + rest)
  }

  /** The same groups with the unused bits of the last one cleared. */
  function Cleared(v: seq<Sextet>): seq<Sextet> {
    if |v| == 2 then [v[0], v[1] / 16 * 16]
    else if |v| == 3 then [v[0], v[1], v[2] / 4 * 4]
    else if |v| < 4 then v
    else v[..4] + Cleared(v[4..])
  }

  lemma FirstSplits(x: Byte, v: Sextet, w: Sextet)
    ensures x == FirstByte(v, w) <==> v == x / 4 && w / 16 == x % 4
  {
  }

  lemma SecondSplits(x: Byte, v: Sextet, w: Sextet)
    ensures x == SecondByte(v, w) <==> v % 16 == x / 16 && w / 4 == x % 16
  {
  }

  lemma ThirdSplits(x: Byte, v: Sextet, w: Sextet)
    ensures x == ThirdByte(v, w) <==> v % 4 == x / 64 && w == x % 64
  {
  }

  lemma MiddlesSplit(w: Sextet, x: Byte, y: Byte)
    ensures w == MiddleSextet(x, y) <==> w / 16 == x % 4 && w % 16 == y / 16
    ensures w == LaterSextet(x, y) <==> w / 4 == x % 16 && w % 4 == y / 64
    ensures w / 16 * 16 == MiddleSextet(x, 0) <==> w / 16 == x % 4
    ensures w / 4 * 4 == LaterSextet(x, 0) <==> w / 4 == x % 16
  {
  }

  lemma QuadBits(x: Byte, y: Byte, z: Byte, a: Sextet, b: Sextet, c: Sextet, d: Sextet)
    ensures x == FirstByte(a, b) && y == SecondByte(b, c) && z == ThirdByte(c, d)
       <==> a == FirstSextet(x) && b == MiddleSextet(x, y) && c == LaterSextet(y, z) && d == LastSextet(z)
  {
    FirstSplits(x, a, b);
    SecondSplits(y, b, c);
    ThirdSplits(z, c, d);
    MiddlesSplit(b, x, y);
    MiddlesSplit(c, y, z);
  }

  lemma QuadMatches(v: seq<Sextet>, b: Bytes)
    requires |v| == 4 && |b| == 3
    ensures b == [FirstByte(v[0], v[1]), SecondByte(v[1], v[2]), ThirdByte(v[2], v[3])]
       <==> v == [FirstSextet(b[0]), MiddleSextet(b[0], b[1]), LaterSextet(b[1], b[2]), LastSextet(b[2])]
  {
    QuadBits(b[0], b[1], b[2], v[0], v[1], v[2], v[3]);
  }

  lemma PairMatches(v: seq<Sextet>, b: Bytes)
    requires |v| == 2 && |b| == 1
    ensures b == [FirstByte(v[0], v[1])] <==> [v[0], v[1] / 16 * 16] == [FirstSextet(b[0]), MiddleSextet(b[0], 0)]
  {
    FirstSplits(b[0], v[0], v[1]);
    MiddlesSplit(v[1], b[0], 0);
  }

  lemma TripleMatches(v: seq<Sextet>, b: Bytes)
    requires |v| == 3 && |b| == 2
    ensures b == [FirstByte(v[0], v[1]), SecondByte(v[1], v[2])]
       <==> [v[0], v[1], v[2] / 4 * 4] == [FirstSextet(b[0]), MiddleSextet(b[0], b[1]), LaterSextet(b[1], 0)]
  {
    FirstSplits(b[0], v[0], v[1]);
    SecondSplits(b[1], v[1], v[2]);
    MiddlesSplit(v[1], b[0], b[1]);
    MiddlesSplit(v[2], b[1], 0);
  }

  lemma TailMatches(v: seq<Sextet>, b: Bytes)
    requires |v| < 4 || |b| < 3
    ensures FromSextets(v) == Some(b) <==> Cleared(v) == Sextets(b)
  {
    if |v| == 2 && |b| == 1 {
      PairMatches(v, b);
    } else if |v| == 3 && |b| == 2 {
      TripleMatches(v, b);
    }
  }

  /** Decoding inverts encoding up to the unused bits, in both directions. */
  lemma {:induction false} FromSextetsExactly(v: seq<Sextet>, b: Bytes)
    ensures FromSextets(v) == Some(b) <==> Cleared(v) == Sextets(b)
    decreases |v|
  {
    if |v| < 4 || |b| < 3 {
      TailMatches(v, b);
    } else {
      FromSextetsExactly(v[4..], b[3..]);
      QuadMatches(v[..4], b[..3]);
      assert b == b[..3] + b[3..];
      assert Sextets(b)[4..] == Sextets(b[3..]);
      assert Cleared(v)[..4] == v[..4] && Cleared(v)[4..] == Cleared(v[4..]);
    }
  }

  lemma {:induction false} EncodedIsCleared(b: Bytes)
    ensures Cleared(Sextets(b)) == Sextets(b)
  {
    if |b| >= 3 {
      EncodedIsCleared(b[3..]);
      assert Sextets(b)[4..] == Sextets(b[3..]);
    }
  }

  // ------------------------------------------------------------------
  // Characters
  // ------------------------------------------------------------------

  function Char(v: Sextet): char {
    if v < 26 then 'A' + v as char
    else if v < 52 then 'a' + (v - 26) as char
    else if v < 62 then '0' + (v - 52) as char
    else if v == 62 then '-' else '_'
  }

  function Value(c: char): Option<Sextet> {
    if 'A' <= c <= 'Z' then Some((c - 'A') as int)
    else if 'a' <= c <= 'z' then Some((c - 'a') as int + 26)
    else if '0' <= c <= '9' then Some((c - '0') as int + 52)
    else if c == '-' then Some(62)
    else if c == '_' then Some(63)
    else None
  }

  predicate Skipped(c: char) {
    c == '\n' || c == '\r'
  }

  /** The URL-safe alphabet, and nothing else: in particular no padding and none of the
      standard alphabet's two other characters. */
  lemma Alphabet(c: char, v: Sextet)
    ensures Value(c) == Some(v) <==> c == Char(v)
    ensures v < 26 ==> Char(v) as int == 'A' as int + v
    ensures 26 <= v < 52 ==> Char(v) as int == 'a' as int + v - 26
    ensures 52 <= v < 62 ==> Char(v) as int == '0' as int + v - 52
    ensures Char(62) == '-' && Char(63) == '_'
    ensures Value('=').None? && Value('+').None? && Value('/').None?
  {
  }

  function Written(v: seq<Sextet>): string {
    seq(|v|, i requires 0 <= i < |v| => Char(v[i]))
  }

  function Values(s: string): Option<seq<Sextet>> {
    if s == "" then Some([])
    else if Skipped(s[0]) then Values(s[1..])
    else
      match (Value(s[0]), Values(s[1..]))
      case (Some(v), Some(rest)) => Some([v] + rest)
      case _ => None
  }

  function Encode(b: Bytes): string {
    Written(Sextets(b))
  }

  function Decode(s: string): Option<Bytes> {
    match Values(s)
    case None => None
    case Some(v) => FromSextets(v)
  }

  lemma {:induction false} ValuesOfWritten(v: seq<Sextet>)
    ensures Values(Written(v)) == Some(v)
  {
    if v != [] {
      assert Written(v)[1..] == Written(v[1..]);
      ValuesOfWritten(v[1..]);
      assert Value(Char(v[0])) == Some(v[0]);
      assert !Skipped(Char(v[0]));
      assert v == [v[0]] + v[1..];
    }
  }

  /** A string decodes to exactly the bytes whose encoding it spells, unused bits aside. */
  lemma DecodeExactly(s: string, b: Bytes)
    ensures Decode(s) == Some(b) <==> Values(s).Some? && Written(Cleared(Values(s).value)) == Encode(b)
  {
    if Values(s).Some? {
      FromSextetsExactly(Values(s).value, b);
      ValuesOfWritten(Cleared(Values(s).value));
      ValuesOfWritten(Sextets(b));
    }
  }

  lemma RoundTrip(b: Bytes)
    ensures Decode(Encode(b)) == Some(b)
  {
    ValuesOfWritten(Sextets(b));
    EncodedIsCleared(b);
    FromSextetsExactly(Sextets(b), b);
  }

  lemma {:induction false} ValuesSkip(s: string, i: nat, c: char)
    requires i <= |s| && Skipped(c)
    ensures Values(s[..i] + [c] + s[i..]) == Values(s)
    decreases i
  {
    var longer := s[..i] + [c] + s[i..];
    if i == 0 {
      assert longer[1..] == s;
    } else {
      assert longer[1..] == s[1..][..i - 1] + [c] + s[1..][i - 1..];
      ValuesSkip(s[1..], i - 1, c);
    }
  }

  /** Every string has other spellings: a line break anywhere changes nothing. */
  lemma OtherSpellings(s: string, i: nat, c: char)
    requires i <= |s| && (c == '\n' || c == '\r')
    ensures s[..i] + [c] + s[i..] != s
    ensures Decode(s[..i] + [c] + s[i..]) == Decode(s)
  {
    ValuesSkip(s, i, c);
    assert |s[..i] + [c] + s[i..]| == |s| + 1;
  }

  /** Nor do the unused bits: "AA" and "AB" spell the same byte. */
  lemma UnusedBitsAreIgnored(v: seq<Sextet>, w: seq<Sextet>)
    requires Cleared(v) == Cleared(w)
    ensures Decode(Written(v)) == Decode(Written(w))
  {
    ValuesOfWritten(v);
    ValuesOfWritten(w);
    match FromSextets(v)
    case Some(b) => FromSextetsExactly(v, b); FromSextetsExactly(w, b);
    case None =>
      if FromSextets(w).Some? {
        FromSextetsExactly(v, FromSextets(w).value);
        FromSextetsExactly(w, FromSextets(w).value);
      }
  }

  /** The standard's own examples, for one, two and three bytes (section 10 of RFC 4648). */
  lemma StandardExamples()
    ensures Encode([102]) == "Zg" && Encode([102, 111]) == "Zm8" && Encode([102, 111, 111]) == "Zm9v"
  {
    assert Sextets([102]) == [25, 32];
    assert Sextets([102, 111]) == [25, 38, 60];
    assert [102, 111, 111][3..] == [];
    assert Sextets([102, 111, 111]) == [25, 38, 61, 47];
    assert Char(25) == 'Z' && Char(32) == 'g' && Char(38) == 'm' && Char(60) == '8' && Char(61) == '9' && Char(47) == 'v';
  }
}
