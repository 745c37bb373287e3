// Decoding a body in the chunked transfer coding (section 7.1 of RFC 9112).
// Source: scripts/docker_metadata_exporter.py (_decode_chunked)
module ChunkedBody {
  import opened Bytes
  import opened Wrappers

  const CR: Byte := 13
  const LF: Byte := 10
  const CRLF: ByteString := [CR, LF]
  const SEMICOLON: Byte := 59
  const UNDERSCORE: Byte := 95

  // ----- Python's int(bytes, 16) -----

  predicate IsSpace(b: Byte) {
    b == 32 || 9 <= b <= 13
  }

  predicate IsHexDigit(b: Byte) {
    48 <= b <= 57 || 65 <= b <= 70 || 97 <= b <= 102
  }

  function HexDigit(b: Byte): (d: nat)
    requires IsHexDigit(b)
    ensures d < 16
  {
    if b <= 57 then b - 48 else if b <= 70 then b - 55 else b - 87
  }

  function HexValue(digits: ByteString): nat
    requires forall k :: 0 <= k < |digits| ==> IsHexDigit(digits[k])
  {
    if digits == [] then 0 else 16 * HexValue(digits[..|digits| - 1]) + HexDigit(digits[|digits| - 1])
  }

  function StripLeft(s: ByteString): ByteString {
    if s != [] && IsSpace(s[0]) then StripLeft(s[1..]) else s
  }

  function StripRight(s: ByteString): ByteString {
    if s != [] && IsSpace(s[|s| - 1]) then StripRight(s[..|s| - 1]) else s
  }

  /** Digits with single underscores between them. */
  function Underscored(s: ByteString): Option<nat>
    decreases |s|
  {
    if s == [] || !IsHexDigit(s[|s| - 1]) then None
    else
      var d := HexDigit(s[|s| - 1]);
      var rest := s[..|s| - 1];
      if rest == [] then Some(d)
      else
        var before := Underscored(if rest[|rest| - 1] == UNDERSCORE then rest[..|rest| - 1] else rest);
        if before.None? then None else Some(16 * before.value + d)
  }

  /** Behind an optional `0x`, one underscore may come before the digits. */
  function Unsigned(s: ByteString): Option<nat> {
    if |s| >= 2 && s[0] == 48 && (s[1] == 120 || s[1] == 88) then
      var digits := s[2..];
      Underscored(if digits != [] && digits[0] == UNDERSCORE then digits[1..] else digits)
    else Underscored(s)
  }

  /** `int(s, 16)`, `None` being its ValueError. */
  function PythonInt16(s: ByteString): Option<int> {
    var t := StripRight(StripLeft(s));
    if t != [] && (t[0] == 43 || t[0] == 45) then
      var magnitude := Unsigned(t[1..]);
      if magnitude.None? then None
      else
        var m: int := magnitude.value;
        Some(if t[0] == 45 then -m else m)
    else
      var magnitude := Unsigned(t);
      if magnitude.None? then None else Some(magnitude.value)
  }

  // ----- the decoder -----

  predicate CrlfAt(body: ByteString, k: nat) {
    k + 2 <= |body| && body[k] == CR && body[k + 1] == LF
  }

  /** `body.find(b"\r\n", idx)`, `None` being -1. */
  function FindCrlf(body: ByteString, idx: nat): (r: Option<nat>)
    ensures r.Some? ==> idx <= r.value <= |body| - 2
    decreases |body| - idx
  {
    if idx + 2 > |body| then None
    else if CrlfAt(body, idx) then Some(idx)
    else FindCrlf(body, idx + 1)
  }

  lemma {:induction false} FindsTheFirst(body: ByteString, idx: nat)
    ensures var r := FindCrlf(body, idx);
            && (r.Some? ==> CrlfAt(body, r.value))
            && (forall k :: idx <= k && (r.Some? ==> k < r.value) ==> !CrlfAt(body, k))
    decreases |body| - idx
  {
    if idx + 2 <= |body| && !CrlfAt(body, idx) {
      FindsTheFirst(body, idx + 1);
    }
  }

  /** `s.split(b";", 1)[0]` */
  function UpToSemicolon(s: ByteString): ByteString {
    if s == [] || s[0] == SEMICOLON then [] else [s[0]] + UpToSemicolon(s[1..])
  }

  /** Where Python starts for an index: a negative one counts from the end, but not past the front. */
  function Start(body: ByteString, idx: int): nat {
    if idx >= 0 then idx else if |body| + idx >= 0 then |body| + idx else 0
  }

  /** `body[from:to]` */
  function Slice(body: ByteString, from: int, to: int): ByteString {
    var lo, hi := Start(body, from), Start(body, to);
    var end := if hi < |body| then hi else |body|;
    if lo < end then body[lo..end] else []
  }

  datatype Header = NoHeader | NoNumber | Header(size: int, next: nat)

  /** The chunk header at an index: its size, and the index behind its line. */
  function HeaderAt(body: ByteString, idx: nat): (h: Header)
    ensures h.Header? ==> idx + 2 <= h.next <= |body|
  {
    var end := FindCrlf(body, idx);
    if end.None? then NoHeader
    else
      var size := PythonInt16(UpToSemicolon(body[idx..end.value]));
      if size.None? then NoNumber else Header(size.value, end.value + 2)
  }

  /** How decoding ends: with the data, or with one of its two exceptions. */
  datatype Decoded = Data(bytes: ByteString) | MalformedResponse | BadSize

  /** The decoder between two rounds of its loop. */
  datatype State = Going(idx: int, out: ByteString) | Done(result: Decoded)

  function Round(body: ByteString, s: State): State {
    match s
    case Done(_) => s
    case Going(idx, out) =>
      match HeaderAt(body, Start(body, idx))
      case NoHeader => Done(MalformedResponse)
      case NoNumber => Done(BadSize)
      case Header(size, next) =>
        if size == 0 then Done(Data(out))
        else Going(next + size + 2, out + Slice(body, next, next + size))
  }

  /** The decoder after n rounds. */
  function After(body: ByteString, n: nat): State {
    if n == 0 then Going(0, []) else Round(body, After(body, n - 1))
  }

  // ----- when the loop ends -----

  ghost predicate RunsForEver(body: ByteString) {
    forall n: nat :: After(body, n).Going?
  }

  /** Rounds i and j are reached and start at the same place of the body. */
  predicate SamePlace(body: ByteString, i: nat, j: nat) {
    After(body, i).Going? && After(body, j).Going? &&
    Start(body, After(body, i).idx) == Start(body, After(body, j).idx)
  }

  /** Two of the first `|body| + 1` rounds start at the same place. */
  predicate Repeats(body: ByteString) {
    exists i: nat, j: nat :: i < j <= |body| && SamePlace(body, i, j)
  }

  lemma {:induction false} DoneStays(body: ByteString, m: nat, n: nat)
    requires m <= n && After(body, m).Done?
    ensures After(body, n) == After(body, m)
    decreases n
  {
    hide HeaderAt, Slice;
    if m < n {
      DoneStays(body, m, n - 1);
      assert After(body, n) == Round(body, After(body, n - 1));
    }
  }

  lemma GoingBefore(body: ByteString, m: nat, n: nat)
    requires m <= n && After(body, n).Going?
    ensures After(body, m).Going?
  {
    hide Round, After;
    if After(body, m).Done? {
      DoneStays(body, m, n);
    }
  }

  /** A round that another one follows starts where a header can stand. */
  lemma GoesOnInside(body: ByteString, n: nat)
    requires After(body, n + 1).Going?
    ensures After(body, n).Going? && Start(body, After(body, n).idx) < |body|
  {
    hide Slice;
  }

  lemma {:induction false} Range(m: nat) returns (r: set<nat>)
    ensures |r| == m && forall x: nat :: x in r <==> x < m
  {
    if m == 0 {
      r := {};
    } else {
      var below := Range(m - 1);
      assert m - 1 !in below;
      r := below + {m - 1};
    }
  }

  function Elements(s: seq<nat>): set<nat> {
    set x | x in s
  }

  lemma {:induction false} DistinctElements(s: seq<nat>)
    requires forall i, j :: 0 <= i < j < |s| ==> s[i] != s[j]
    ensures |Elements(s)| == |s|
    decreases |s|
  {
    if s == [] {
      assert Elements(s) == {};
    } else {
      var n := |s| - 1;
      var rest := s[..n];
      DistinctElements(rest);
      assert Elements(s) == Elements(rest) + {s[n]};
      assert s[n] !in rest;
    }
  }

  lemma DistinctFit(s: seq<nat>, m: nat)
    requires forall i, j :: 0 <= i < j < |s| ==> s[i] != s[j]
    requires forall k :: 0 <= k < |s| ==> s[k] < m
    ensures |s| <= m
  {
    DistinctElements(s);
    var r := Range(m);
    assert Elements(s) <= r;
    assert r == Elements(s) + (r - Elements(s));
  }

  /** More places than the body has bytes cannot all differ. */
  lemma Pigeonhole(s: seq<nat>, m: nat) returns (i: nat, j: nat)
    requires |s| > m && forall k :: 0 <= k < |s| ==> s[k] < m
    ensures i < j < |s| && s[i] == s[j]
  {
    if forall i, j :: 0 <= i < j < |s| ==> s[i] != s[j] {
      DistinctFit(s, m);
      assert false;
    }
    i, j :| 0 <= i < j < |s| && s[i] == s[j];
  }

  lemma LongRunsRepeat(body: ByteString)
    requires After(body, |body| + 1).Going?
    ensures Repeats(body)
  {
    hide Round, Start;
    forall n: nat | n <= |body| ensures After(body, n).Going? && Start(body, After(body, n).idx) < |body| {
      GoingBefore(body, n + 1, |body| + 1);
      GoesOnInside(body, n);
    }
    var places := seq(|body| + 1, n requires 0 <= n <= |body| => Start(body, After(body, n).idx));
    var i, j := Pigeonhole(places, |body|);
    assert SamePlace(body, i, j);
  }

  /** From two rounds at the same place on, the rounds stay in step. */
  lemma {:induction false} RoundsStayInStep(body: ByteString, i: nat, j: nat, k: nat)
    requires SamePlace(body, i, j) && After(body, i + k).Going?
    ensures SamePlace(body, i + k, j + k)
    decreases k
  {
    hide Slice, HeaderAt;
    if k > 0 {
      GoingBefore(body, i + (k - 1), i + k);
      RoundsStayInStep(body, i, j, k - 1);
      assert After(body, i + k) == Round(body, After(body, i + (k - 1)));
      assert After(body, j + k) == Round(body, After(body, j + (k - 1)));
    }
  }

  lemma {:induction false} RepeatsGoesOn(body: ByteString, i: nat, j: nat, n: nat)
    requires i < j && SamePlace(body, i, j)
    ensures After(body, n).Going?
    decreases n
  {
    hide Round, After, Start;
    if n <= j {
      GoingBefore(body, n, j);
    } else {
      RepeatsGoesOn(body, i, j, i + (n - j));
      RoundsStayInStep(body, i, j, n - j);
      assert j + (n - j) == n;
    }
  }

  /** The loop never ends exactly when two of the first `|body| + 1` rounds start at the same
      place, and when it ends it has ended after that many rounds. */
  lemma RunsForEverExactly(body: ByteString)
    ensures RunsForEver(body) <==> Repeats(body)
    ensures RunsForEver(body) <==> After(body, |body| + 1).Going?
  {
    if Repeats(body) {
      var i: nat, j: nat :| i < j <= |body| && SamePlace(body, i, j);
      forall n: nat ensures After(body, n).Going? {
        RepeatsGoesOn(body, i, j, n);
      }
    }
    if After(body, |body| + 1).Going? {
      LongRunsRepeat(body);
    }
  }

  /** A round moves the index on exactly when its size does not reach back over its own header. */
  predicate MovesOn(body: ByteString, n: nat) {
    After(body, n).Going? &&
    match HeaderAt(body, Start(body, After(body, n).idx))
    case Header(size, next) => size > Start(body, After(body, n).idx) - next - 2
    case _ => true
  }

  lemma MovesOnExactly(body: ByteString, n: nat)
    requires After(body, n + 1).Going?
    ensures After(body, n).Going?
    ensures MovesOn(body, n) <==> After(body, n + 1).idx > Start(body, After(body, n).idx)
  {
    hide HeaderAt, Slice, Start;
  }

  lemma {:induction false} RoundsMoveOn(body: ByteString, i: nat, j: nat)
    requires i < j && After(body, j).Going? && forall n :: i <= n < j ==> MovesOn(body, n)
    ensures After(body, i).Going? && After(body, i).idx < After(body, j).idx && After(body, j).idx >= 0
    ensures Start(body, After(body, i).idx) < After(body, j).idx
    decreases j
  {
    hide HeaderAt, Slice;
    MovesOnExactly(body, j - 1);
    if i < j - 1 {
      RoundsMoveOn(body, i, j - 1);
    }
  }

  /** A loop that never ends has a round, among its first `|body|`, whose negative size reaches
      back to where the round started or before it. */
  lemma ForEverReachesBack(body: ByteString)
    requires RunsForEver(body)
    ensures exists n: nat :: n < |body| && !MovesOn(body, n)
  {
    RunsForEverExactly(body);
    var i: nat, j: nat :| i < j <= |body| && SamePlace(body, i, j);
    if forall n: nat :: n < |body| ==> MovesOn(body, n) {
      RoundsMoveOn(body, i, j);
      assert false;
    }
  }

  /** What `_decode_chunked` answers; `None` for a body on which it never does. */
  function Decode(body: ByteString): Option<Decoded> {
    match After(body, |body| + 1)
    case Going(_, _) => None
    case Done(result) => Some(result)
  }

  /** Whatever the loop answers, after however many rounds, is what `Decode` says. */
  lemma DecodeIsTheAnswer(body: ByteString, d: Decoded)
    ensures Decode(body) == Some(d) <==> exists n: nat :: After(body, n) == Done(d)
  {
    if n: nat :| After(body, n) == Done(d) {
      RunsForEverExactly(body);
      if n <= |body| + 1 {
        DoneStays(body, n, |body| + 1);
      } else {
        assert After(body, |body| + 1).Done?;
        DoneStays(body, |body| + 1, n);
      }
    }
  }

  /** `_decode_chunked`. The source has no count of rounds; here the loop stops after `|body| + 1`
      of them, when it is known that it would never end. */
  method DecodeChunked(body: ByteString) returns (r: Option<Decoded>)
    ensures r == Decode(body)
    ensures r.None? <==> RunsForEver(body)
  {
    RunsForEverExactly(body);
    hide RunsForEver, Slice, HeaderAt;
    var out: ByteString := [];
    var idx: int := 0;
    for rounds := 0 to |body| + 1
      invariant After(body, rounds) == Going(idx, out)
    {
      var header := HeaderAt(body, Start(body, idx));
      assert After(body, rounds + 1) == Round(body, Going(idx, out));
      if header.NoHeader? {
        DoneStays(body, rounds + 1, |body| + 1);
        return Some(MalformedResponse);
      }
      if header.NoNumber? {
        DoneStays(body, rounds + 1, |body| + 1);
        return Some(BadSize);
      }
      idx := header.next;
      if header.size == 0 {
        DoneStays(body, rounds + 1, |body| + 1);
        return Some(Data(out));
      }
      out := out + Slice(body, idx, idx + header.size);
      idx := idx + header.size + 2;
    }
    return None;
  }

  // ----- what a sender may write -----

  /** One chunk: its size in hexadecimal, white space and an extension behind it, its data. */
  datatype Chunk = Chunk(digits: ByteString, pad: ByteString, extension: ByteString, data: ByteString)

  /** A size line: hexadecimal digits, spaces, and an extension that starts with a semicolon and
      does not break the line. */
  predicate SizeLine(digits: ByteString, pad: ByteString, extension: ByteString) {
    && digits != [] && (forall k :: 0 <= k < |digits| ==> IsHexDigit(digits[k]))
    && (forall k :: 0 <= k < |pad| ==> pad[k] == 32 || pad[k] == 9)
    && (extension != [] ==> extension[0] == SEMICOLON)
    && (forall k :: 0 <= k < |extension| ==> !CrlfAt(extension, k))
  }

  predicate WellFormed(c: Chunk) {
    SizeLine(c.digits, c.pad, c.extension) && c.data != [] && HexValue(c.digits) == |c.data|
  }

  function Line(digits: ByteString, pad: ByteString, extension: ByteString): ByteString {
    digits + pad + extension + CRLF
  }

  function Chunks(chunks: seq<Chunk>): ByteString {
    if chunks == [] then []
    else
      var c := chunks[0];
      Line(c.digits, c.pad, c.extension) + c.data + CRLF + Chunks(chunks[1..])
  }

  function Encode(chunks: seq<Chunk>, last: Chunk, trailer: ByteString): ByteString {
    Chunks(chunks) + (Line(last.digits, last.pad, last.extension) + trailer)
  }

  function Content(chunks: seq<Chunk>): ByteString {
    if chunks == [] then [] else chunks[0].data + Content(chunks[1..])
  }

  // ----- reading a size line back -----

  lemma {:induction false} UnderscoredReadsHex(digits: ByteString)
    requires digits != [] && forall k :: 0 <= k < |digits| ==> IsHexDigit(digits[k])
    ensures Underscored(digits) == Some(HexValue(digits))
    decreases |digits|
  {
    if |digits| > 1 {
      UnderscoredReadsHex(digits[..|digits| - 1]);
    }
  }

  lemma {:induction false} StripRightPad(digits: ByteString, pad: ByteString)
    requires digits != [] && !IsSpace(digits[|digits| - 1])
    requires forall k :: 0 <= k < |pad| ==> IsSpace(pad[k])
    ensures StripRight(digits + pad) == digits
    decreases |pad|
  {
    if pad == [] {
      assert digits + pad == digits;
    } else {
      assert (digits + pad)[..|digits + pad| - 1] == digits + pad[..|pad| - 1];
      StripRightPad(digits, pad[..|pad| - 1]);
    }
  }

  lemma {:induction false} StripLeftPad(lead: ByteString, s: ByteString)
    requires (forall k :: 0 <= k < |lead| ==> IsSpace(lead[k])) && (s != [] ==> !IsSpace(s[0]))
    ensures StripLeft(lead + s) == s
    decreases |lead|
  {
    if lead == [] {
      assert lead + s == s;
    } else {
      assert (lead + s)[1..] == lead[1..] + s;
      StripLeftPad(lead[1..], s);
    }
  }

  predicate IsPrefix(prefix: ByteString) {
    prefix == [] || prefix == [48, 120] || prefix == [48, 88]
  }

  predicate IsSign(sign: ByteString) {
    sign == [] || sign == [43] || sign == [45]
  }

  lemma UnsignedReadsHex(prefix: ByteString, digits: ByteString)
    requires IsPrefix(prefix)
    requires digits != [] && forall k :: 0 <= k < |digits| ==> IsHexDigit(digits[k])
    ensures Unsigned(prefix + digits) == Some(HexValue(digits))
  {
    UnderscoredReadsHex(digits);
    hide Underscored, HexValue;
    if prefix == [] {
      assert prefix + digits == digits;
    } else {
      assert (prefix + digits)[2..] == digits;
    }
  }

  lemma SignedReads(s: ByteString, sign: ByteString, number: ByteString, value: nat)
    requires IsSign(sign) && number != [] && number[0] != 43 && number[0] != 45
    requires StripRight(StripLeft(s)) == sign + number && Unsigned(number) == Some(value)
    ensures PythonInt16(s) == Some(if sign == [45] then -(value as int) else value)
  {
    hide Unsigned, StripLeft, StripRight;
    var t := sign + number;
    if sign == [] {
      assert t == number;
    } else {
      assert t[0] == sign[0] && t[1..] == number;
    }
  }

  lemma StripBoth(lead: ByteString, t: ByteString, pad: ByteString)
    requires forall k :: 0 <= k < |lead| ==> IsSpace(lead[k])
    requires t != [] && !IsSpace(t[0]) && !IsSpace(t[|t| - 1])
    requires forall k :: 0 <= k < |pad| ==> IsSpace(pad[k])
    ensures StripRight(StripLeft(lead + (t + pad))) == t
  {
    hide StripLeft, StripRight;
    assert (t + pad)[0] == t[0];
    StripLeftPad(lead, t + pad);
    StripRightPad(t, pad);
  }

  /** `int(_, 16)` takes white space around, a sign, and `0x` before the digits. */
  lemma IntReads(lead: ByteString, sign: ByteString, prefix: ByteString, digits: ByteString, pad: ByteString)
    requires forall k :: 0 <= k < |lead| ==> IsSpace(lead[k])
    requires IsSign(sign) && IsPrefix(prefix)
    requires digits != [] && forall k :: 0 <= k < |digits| ==> IsHexDigit(digits[k])
    requires forall k :: 0 <= k < |pad| ==> IsSpace(pad[k])
    ensures PythonInt16(lead + (sign + (prefix + digits) + pad)) ==
            Some(if sign == [45] then -(HexValue(digits) as int) else HexValue(digits))
  {
    hide HexValue, Unsigned, StripLeft, StripRight, PythonInt16;
    var number := prefix + digits;
    var t := sign + number;
    UnsignedReadsHex(prefix, digits);
    assert number[0] == if prefix == [] then digits[0] else 48;
    assert t[0] == if sign == [] then number[0] else sign[0];
    assert t[|t| - 1] == digits[|digits| - 1];
    StripBoth(lead, t, pad);
    SignedReads(lead + (t + pad), sign, number, HexValue(digits));
  }

  lemma IntReadsHex(digits: ByteString, pad: ByteString)
    requires SizeLine(digits, pad, [])
    ensures PythonInt16(digits + pad) == Some(HexValue(digits))
  {
    IntReads([], [], [], digits, pad);
    hide PythonInt16, HexValue;
    assert [] + ([] + ([] + digits) + pad) == digits + pad;
  }

  /** A byte that no number has, or nothing but white space. */
  predicate HoldsNoNumber(s: ByteString) {
    (forall k :: 0 <= k < |s| ==> IsSpace(s[k])) ||
    exists k :: 0 <= k < |s| && !IsSpace(s[k]) && !InNumber(s[k])
  }

  predicate InNumber(b: Byte) {
    IsHexDigit(b) || b in [UNDERSCORE, 43, 45, 120, 88]
  }

  lemma {:induction false} UnderscoredHasDigits(s: ByteString)
    ensures Underscored(s).Some? ==> s != [] && forall k :: 0 <= k < |s| ==> IsHexDigit(s[k]) || s[k] == UNDERSCORE
    decreases |s|
  {
    if Underscored(s).Some? {
      var rest := s[..|s| - 1];
      if rest != [] {
        UnderscoredHasDigits(if rest[|rest| - 1] == UNDERSCORE then rest[..|rest| - 1] else rest);
      }
    }
  }

  lemma UnsignedHasDigits(s: ByteString)
    ensures Unsigned(s).Some? ==> s != [] && forall k :: 0 <= k < |s| ==> InNumber(s[k])
  {
    hide Underscored;
    UnderscoredHasDigits(s);
    if |s| >= 2 {
      var digits := s[2..];
      UnderscoredHasDigits(digits);
      if digits != [] {
        UnderscoredHasDigits(digits[1..]);
      }
      assert forall k :: 2 <= k < |s| ==> s[k] == digits[k - 2];
      assert forall k :: 3 <= k < |s| ==> s[k] == digits[1..][k - 3];
    }
  }

  lemma {:induction false} StripLeftKeeps(s: ByteString)
    ensures StripLeft(s) != [] ==> !IsSpace(StripLeft(s)[0])
    ensures forall x :: x in s ==> IsSpace(x) || x in StripLeft(s)
    ensures forall x :: x in StripLeft(s) ==> x in s
  {
    if s != [] && IsSpace(s[0]) {
      StripLeftKeeps(s[1..]);
    }
  }

  lemma {:induction false} StripRightKeeps(s: ByteString)
    ensures StripRight(s) <= s
    ensures forall x :: x in s ==> IsSpace(x) || x in StripRight(s)
    decreases |s|
  {
    if s != [] && IsSpace(s[|s| - 1]) {
      var rest := s[..|s| - 1];
      StripRightKeeps(rest);
      assert s == rest + [s[|s| - 1]];
    }
  }

  lemma NoNumberIsNone(s: ByteString)
    requires HoldsNoNumber(s)
    ensures PythonInt16(s).None?
  {
    hide Unsigned, StripLeft, StripRight;
    var left := StripLeft(s);
    var t := StripRight(left);
    StripLeftKeeps(s);
    StripRightKeeps(left);
    UnsignedHasDigits(t);
    if t == [] {
      return;
    }
    UnsignedHasDigits(t[1..]);
    assert t[0] == left[0] && left[0] in s;
    var k :| 0 <= k < |s| && !IsSpace(s[k]) && !InNumber(s[k]);
    assert s[k] in t;
    var i :| 0 <= i < |t| && t[i] == s[k];
    assert i > 0 ==> t[i] == t[1..][i - 1];
    assert InNumber(43) && InNumber(45);
  }

  lemma {:induction false} UpToSemicolonOf(s: ByteString, extension: ByteString)
    requires SEMICOLON !in s && (extension != [] ==> extension[0] == SEMICOLON)
    ensures UpToSemicolon(s + extension) == s
    decreases |s|
  {
    if s == [] {
      assert s + extension == extension;
    } else {
      assert (s + extension)[1..] == s[1..] + extension;
      UpToSemicolonOf(s[1..], extension);
    }
  }

  /** The line ends at the first CRLF of what starts with it. */
  predicate Unbroken(line: ByteString) {
    forall k :: 0 <= k < |line| ==> !CrlfAt(line + CRLF, k)
  }

  /** The line at an index is what is there up to the first CRLF. */
  lemma LineEnds(body: ByteString, idx: nat, line: ByteString, rest: ByteString)
    requires idx <= |body| && body[idx..] == line + CRLF + rest
    requires Unbroken(line)
    ensures FindCrlf(body, idx) == Some(idx + |line|) && body[idx..idx + |line|] == line
  {
    var at, whole := idx + |line|, line + CRLF;
    assert |body| >= at + 2 && body[idx..][..|line| + 2] == whole;
    assert forall k :: 0 <= k < |line| + 2 ==> body[idx + k] == whole[k];
    forall k | idx <= k < at ensures !CrlfAt(body, k) {
      assert !CrlfAt(whole, k - idx);
      assert body[idx + (k - idx)] == whole[k - idx] && body[idx + (k + 1 - idx)] == whole[k + 1 - idx];
    }
    assert CrlfAt(body, at) by {
      assert body[idx + |line|] == whole[|line|] && body[idx + (|line| + 1)] == whole[|line| + 1];
    }
    FindsTheFirst(body, idx);
    assert body[idx..at] == whole[..|line|];
  }

  lemma LineHasNoBreak(digits: ByteString, pad: ByteString, extension: ByteString, k: nat)
    requires SizeLine(digits, pad, extension) && k < |digits + pad + extension|
    ensures !CrlfAt(digits + pad + extension + CRLF, k)
  {
    var whole := digits + pad + extension + CRLF;
    var n := |digits| + |pad|;
    if k < n {
      assert whole[k] != CR;
    } else {
      assert whole[k] == extension[k - n];
      if k + 1 < n + |extension| {
        assert whole[k + 1] == extension[k + 1 - n];
        assert !CrlfAt(extension, k - n);
      } else {
        assert whole[k + 1] == CR;
      }
    }
  }

  /** Wherever a size line stands in a body, the decoder reads its size and the index behind it. */
  lemma HeaderReadsLine(body: ByteString, idx: nat, digits: ByteString, pad: ByteString, extension: ByteString)
    requires SizeLine(digits, pad, extension)
    requires idx <= |body| && Line(digits, pad, extension) <= body[idx..]
    ensures HeaderAt(body, idx) == Header(HexValue(digits), idx + |Line(digits, pad, extension)|)
  {
    var line := digits + pad + extension;
    forall k | 0 <= k < |line| ensures !CrlfAt(line + CRLF, k) {
      LineHasNoBreak(digits, pad, extension, k);
    }
    LineEnds(body, idx, line, body[idx..][|line| + 2..]);
    assert line == (digits + pad) + extension;
    assert SEMICOLON !in digits + pad;
    UpToSemicolonOf(digits + pad, extension);
    IntReadsHex(digits, pad);
    hide PythonInt16, UpToSemicolon, FindCrlf, HexValue, Unbroken;
  }

  /** Well-formed chunks, wherever they stand, are decoded one a round, up to what is behind them. */
  lemma {:induction false} ChunksDecode(
    body: ByteString, n: nat, idx: nat, out: ByteString, chunks: seq<Chunk>, rest: ByteString)
    requires forall k :: 0 <= k < |chunks| ==> WellFormed(chunks[k])
    requires idx <= |body| && body[idx..] == Chunks(chunks) + rest
    requires After(body, n) == Going(idx, out)
    ensures idx + |Chunks(chunks)| <= |body| && body[idx + |Chunks(chunks)|..] == rest
    ensures After(body, n + |chunks|) == Going(idx + |Chunks(chunks)|, out + Content(chunks))
    decreases |chunks|
  {
    hide HeaderAt, SizeLine, HexValue, Line, Slice, Start;
    hide WellFormed, Round;
    if chunks == [] {
      assert Chunks(chunks) + rest == rest && out + [] == out;
    } else {
      var c := chunks[0];
      var line, more := Line(c.digits, c.pad, c.extension), Chunks(chunks[1..]) + rest;
      assert body[idx..] == line + c.data + CRLF + more;
      ChunkRound(body, n, idx, out, c, more);
      var next := idx + |line| + |c.data| + 2;
      ChunksDecode(body, n + 1, next, out + c.data, chunks[1..], rest);
      assert n + 1 + |chunks[1..]| == n + |chunks|;
      assert out + (c.data + Content(chunks[1..])) == out + c.data + Content(chunks[1..]);
    }
  }

  /** One chunk, one round. */
  lemma ChunkRound(body: ByteString, n: nat, idx: nat, out: ByteString, c: Chunk, rest: ByteString)
    requires WellFormed(c) && After(body, n) == Going(idx, out) && idx <= |body|
    requires body[idx..] == Line(c.digits, c.pad, c.extension) + c.data + CRLF + rest
    ensures var next := idx + |Line(c.digits, c.pad, c.extension)| + |c.data| + 2;
            next <= |body| && body[next..] == rest && After(body, n + 1) == Going(next, out + c.data)
  {
    hide HeaderAt, SizeLine, HexValue, Line, Slice;
    var line := Line(c.digits, c.pad, c.extension);
    BehindChunk(body, idx, line, c.data, rest);
    HeaderReadsLine(body, idx, c.digits, c.pad, c.extension);
    assert After(body, n + 1) == Round(body, After(body, n));
  }

  lemma BehindChunk(body: ByteString, idx: nat, line: ByteString, data: ByteString, rest: ByteString)
    requires idx <= |body| && body[idx..] == line + data + CRLF + rest
    ensures line <= body[idx..]
    ensures var next := idx + |line|;
            next + |data| + 2 <= |body| &&
            Slice(body, next, next + |data|) == data && body[next + |data| + 2..] == rest
  {
    var next := idx + |line|;
    assert |body| == idx + |line| + |data| + 2 + |rest|;
    assert body[next..next + |data|] == body[idx..][|line|..|line| + |data|];
    assert body[next + |data| + 2..] == body[idx..][|line| + |data| + 2..];
  }

  /** The round trip, whatever the data, the extensions and the trailer hold. */
  lemma ChunkedRoundTrip(chunks: seq<Chunk>, last: Chunk, trailer: ByteString)
    requires forall k :: 0 <= k < |chunks| ==> WellFormed(chunks[k])
    requires SizeLine(last.digits, last.pad, last.extension) && HexValue(last.digits) == 0
    ensures Decode(Encode(chunks, last, trailer)) == Some(Data(Content(chunks)))
  {
    hide SizeLine, HexValue, WellFormed, Line, HeaderAt, Decode, Chunks, Content, Slice;
    var body := Encode(chunks, last, trailer);
    var line := Line(last.digits, last.pad, last.extension);
    var n, idx := |chunks|, |Chunks(chunks)|;
    assert body[0..] == body;
    ChunksDecode(body, 0, 0, [], chunks, line + trailer);
    assert line <= body[idx..] && [] + Content(chunks) == Content(chunks);
    HeaderReadsLine(body, idx, last.digits, last.pad, last.extension);
    assert Round(body, Going(idx, [] + Content(chunks))) == Done(Data(Content(chunks)));
    assert After(body, n + 1) == Round(body, After(body, n));
    assert After(body, n + 1) == Done(Data(Content(chunks)));
    DecodeIsTheAnswer(body, Data(Content(chunks)));
  }

  // ----- what is cut off or no number -----

  /** A line that is not finished is no header. */
  lemma UnfinishedLine(body: ByteString, idx: nat, digits: ByteString, pad: ByteString, extension: ByteString)
    requires SizeLine(digits, pad, extension)
    requires idx <= |body| && body[idx..] < Line(digits, pad, extension)
    ensures HeaderAt(body, idx).NoHeader?
  {
    var line := digits + pad + extension;
    forall k | idx <= k ensures !CrlfAt(body, k) {
      if k + 2 <= |body| {
        assert body[idx..] == (line + CRLF)[..|body| - idx];
        assert body[k] == body[idx..][k - idx] && body[k + 1] == body[idx..][k + 1 - idx];
        LineHasNoBreak(digits, pad, extension, k - idx);
      }
    }
    FindsTheFirst(body, idx);
  }

  lemma {:induction false} CutOff(
    body: ByteString, n: nat, idx: nat, out: ByteString, chunks: seq<Chunk>, last: Chunk)
    requires forall k :: 0 <= k < |chunks| ==> WellFormed(chunks[k])
    requires SizeLine(last.digits, last.pad, last.extension)
    requires idx <= |body| && body[idx..] < Encode(chunks, last, [])
    requires After(body, n) == Going(idx, out)
    ensures exists m: nat :: After(body, m) == Done(MalformedResponse)
    decreases |chunks|
  {
    hide HeaderAt, SizeLine, HexValue, Line, Slice;
    assert After(body, n + 1) == Round(body, After(body, n));
    var c := if chunks == [] then last else chunks[0];
    var line, whole := Line(c.digits, c.pad, c.extension), Encode(chunks, last, []);
    assert body[idx..] == whole[..|body| - idx];
    assert line <= whole by { FirstLine(chunks, last); }
    if |body| - idx < |line| {
      assert body[idx..] == line[..|body| - idx];
      UnfinishedLine(body, idx, c.digits, c.pad, c.extension);
      assert After(body, n + 1) == Done(MalformedResponse);
    } else {
      assert body[idx..][..|line|] == line;
      HeaderReadsLine(body, idx, c.digits, c.pad, c.extension);
      var next := idx + |line| + |c.data| + 2;
      assert chunks != [];
      assert After(body, n + 1) == Going(next, out + Slice(body, idx + |line|, idx + |line| + |c.data|));
      if next > |body| {
        assert HeaderAt(body, next).NoHeader? by { PastTheEnd(body, next); }
        assert After(body, n + 2) == Round(body, After(body, n + 1));
        assert After(body, n + 2) == Done(MalformedResponse);
      } else {
        var rest := Encode(chunks[1..], last, []);
        assert whole == line + c.data + CRLF + rest;
        assert body[next..] == body[idx..][next - idx..] == rest[..|body| - next];
        CutOff(body, n + 1, next, out + Slice(body, idx + |line|, idx + |line| + |c.data|), chunks[1..], last);
      }
    }
  }

  lemma FirstLine(chunks: seq<Chunk>, last: Chunk)
    ensures var c := if chunks == [] then last else chunks[0];
            Line(c.digits, c.pad, c.extension) <= Encode(chunks, last, [])
    ensures chunks == [] ==> Encode(chunks, last, []) == Line(last.digits, last.pad, last.extension)
  {
  }

  lemma PastTheEnd(body: ByteString, idx: nat)
    requires idx >= |body|
    ensures HeaderAt(body, idx).NoHeader?
  {
  }

  /** A response cut off anywhere before the end of its last chunk is refused, not taken for a
      shorter one. */
  lemma CutOffIsMalformed(chunks: seq<Chunk>, last: Chunk, n: nat)
    requires forall k :: 0 <= k < |chunks| ==> WellFormed(chunks[k])
    requires SizeLine(last.digits, last.pad, last.extension) && n < |Encode(chunks, last, [])|
    ensures Decode(Encode(chunks, last, [])[..n]) == Some(MalformedResponse)
  {
    hide SizeLine, WellFormed, Encode, HeaderAt, Decode;
    var body := Encode(chunks, last, [])[..n];
    assert body[0..] == body;
    CutOff(body, 0, 0, [], chunks, last);
    DecodeIsTheAnswer(body, MalformedResponse);
  }

  lemma NoNumberHeader(body: ByteString, idx: nat, line: ByteString, rest: ByteString)
    requires idx <= |body| && body[idx..] == line + CRLF + rest
    requires Unbroken(line) && HoldsNoNumber(UpToSemicolon(line))
    ensures HeaderAt(body, idx) == NoNumber
  {
    LineEnds(body, idx, line, rest);
    NoNumberIsNone(UpToSemicolon(line));
    hide PythonInt16, FindCrlf, UpToSemicolon, HoldsNoNumber, Unbroken;
  }

  /** A size line that holds no number, behind any chunks, is told as such. */
  lemma BadSizeIsTold(chunks: seq<Chunk>, line: ByteString, rest: ByteString)
    requires forall k :: 0 <= k < |chunks| ==> WellFormed(chunks[k])
    requires Unbroken(line) && HoldsNoNumber(UpToSemicolon(line))
    ensures Decode(Chunks(chunks) + (line + CRLF + rest)) == Some(BadSize)
  {
    hide WellFormed, Decode, HoldsNoNumber, Unbroken, HeaderAt, Chunks, Content, Slice;
    var body := Chunks(chunks) + (line + CRLF + rest);
    var idx := |Chunks(chunks)|;
    assert body[0..] == body;
    ChunksDecode(body, 0, 0, [], chunks, line + CRLF + rest);
    NoNumberHeader(body, idx, line, rest);
    assert Round(body, Going(idx, [] + Content(chunks))) == Done(BadSize);
    assert After(body, |chunks| + 1) == Round(body, After(body, |chunks|));
    assert After(body, |chunks| + 1) == Done(BadSize);
    DecodeIsTheAnswer(body, BadSize);
  }

  // ----- two bodies with negative sizes -----

  /** "-6\r\n": the size sends the index back to where it was, for ever. */
  lemma NegativeSizeNeverEnds()
    ensures RunsForEver([45, 54, CR, LF])
  {
    var body: ByteString := [45, 54, CR, LF];
    MinusSix(body);
    assert After(body, 0).Going? && After(body, 1) == Round(body, After(body, 0));
    assert SamePlace(body, 0, 1);
    RunsForEverExactly(body);
  }

  lemma MinusSix(body: ByteString)
    requires body == [45, 54, CR, LF]
    ensures HeaderAt(body, 0) == Header(-6, 4)
  {
    assert !CrlfAt(body, 0) && !CrlfAt(body, 1) && CrlfAt(body, 2);
    assert FindCrlf(body, 1) == Some(2);
    assert FindCrlf(body, 0) == Some(2);
    var s := body[0..2];
    assert s == [45, 54] && s[1..] == [54] && s[1..][1..] == [];
    assert UpToSemicolon(s[1..][1..]) == [];
    assert UpToSemicolon(s[1..]) == [54];
    assert UpToSemicolon(s) == s;
    assert StripLeft(s) == s && StripRight(s) == s;
    assert Underscored([54]) == Some(6);
  }

  lemma MinusTwo(body: ByteString)
    requires body == [45, 50, CR, LF, 48, CR, LF]
    ensures HeaderAt(body, 0) == Header(-2, 4) && HeaderAt(body, 4) == Header(0, 7)
  {
    assert !CrlfAt(body, 0) && !CrlfAt(body, 1) && CrlfAt(body, 2) && !CrlfAt(body, 4) && CrlfAt(body, 5);
    assert FindCrlf(body, 1) == Some(2);
    assert FindCrlf(body, 0) == Some(2);
    assert FindCrlf(body, 5) == Some(5);
    assert FindCrlf(body, 4) == Some(5);
    var s, z := body[0..2], body[4..5];
    assert s == [45, 50] && s[1..] == [50] && s[1..][1..] == [];
    assert UpToSemicolon(s[1..][1..]) == [];
    assert UpToSemicolon(s[1..]) == [50];
    assert UpToSemicolon(s) == s;
    assert StripLeft(s) == s && StripRight(s) == s;
    assert Underscored([50]) == Some(2);
    assert z == [48] && z[1..] == [];
    assert UpToSemicolon(z[1..]) == [];
    assert UpToSemicolon(z) == z;
    assert StripLeft(z) == z && StripRight(z) == z;
    assert Underscored([48]) == Some(0);
  }

  /** "-2\r\n0\r\n": a negative size need not keep the loop from ending. */
  lemma NegativeSizeMayEnd()
    ensures Decode([45, 50, CR, LF, 48, CR, LF]) == Some(Data([]))
  {
    var body: ByteString := [45, 50, CR, LF, 48, CR, LF];
    MinusTwo(body);
    assert Slice(body, 4, 2) == [];
    hide HeaderAt, Slice;
    assert After(body, 0) == Going(0, []) && After(body, 1) == Going(4, []) && After(body, 2) == Done(Data([]));
    DoneStays(body, 2, |body| + 1);
  }
}
