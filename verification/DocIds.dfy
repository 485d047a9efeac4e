/** Document ids: six bytes written as twelve hex digits, and the looser forms accepted on input. */
module DocIds {
  import opened Wrappers
  import Chunking

  newtype Byte = n: int | 0 <= n < 256

  type DocId = b: seq<Byte> | |b| == 6 witness [0, 0, 0, 0, 0, 0]

  datatype DocIdError = LengthMismatch(expected: nat, actual: nat) | InvalidFormat | Empty

  /** A call that may panic, which slicing a string inside a character does. */
  datatype Outcome<+T> = Panics | Returns(value: T)

  // ---------------------------------------------------------------- bytes of a text

  /** Bytes of a character in UTF-8. */
  function Width(c: char): (w: nat)
    ensures 1 <= w <= 4
  {
    if c as int < 0x80 then 1 else if c as int < 0x800 then 2 else if c as int < 0x1_0000 then 3 else 4
  }

  /** With w bytes, UTF-8 has 7, 11, 16 and 21 bits for a character. */
  lemma WidthIs(c: char)
    ensures Width(c) <= 1 <==> c as int < 128
    ensures Width(c) <= 2 <==> c as int < 2_048
    ensures Width(c) <= 3 <==> c as int < 65_536
  {
  }

  function ByteLength(s: string): nat
  {
    if s == [] then 0 else Width(s[0]) + ByteLength(s[1..])
  }

  /** The character that starts at a byte offset; none when the offset is inside a character or past the end. */
  function CharAt(s: string, n: nat): (r: Option<nat>)
    ensures r.Some? ==> r.value <= |s|
  {
    if n == 0 then Some(0)
    else if s == [] || n < Width(s[0]) then None
    else
      var rest := CharAt(s[1..], n - Width(s[0]));
      if rest.Some? then Some(rest.value + 1) else None
  }

  /** `&s[from..to]`: none stands for the panic. */
  function SliceBytes(s: string, from: nat, to: nat): Option<string>
  {
    var i, j := CharAt(s, from), CharAt(s, to);
    if i.Some? && j.Some? && i.value <= j.value then Some(s[i.value..j.value]) else None
  }

  /** The byte offset lies inside a character. */
  predicate Splits(s: string, n: nat)
  {
    exists i | 0 <= i < |s| :: ByteLength(s[..i]) < n < ByteLength(s[..i + 1])
  }

  lemma PrefixBytes(s: string, i: nat)
    requires 0 < i <= |s|
    ensures ByteLength(s[..i]) == Width(s[0]) + ByteLength(s[1..][..i - 1])
  {
    assert s[..i][1..] == s[1..][..i - 1];
  }

  /** A byte offset starts the character whose predecessors take up that many bytes. */
  lemma {:induction false} CharAtOffset(s: string, n: nat)
    ensures CharAt(s, n).Some? ==> ByteLength(s[..CharAt(s, n).value]) == n
  {
    if n > 0 && s != [] && n >= Width(s[0]) {
      CharAtOffset(s[1..], n - Width(s[0]));
      if CharAt(s, n).Some? {
        PrefixBytes(s, CharAt(s, n).value);
      }
    }
  }

  lemma SplitsFront(s: string, n: nat)
    requires s != [] && n >= Width(s[0])
    ensures Splits(s, n) <==> Splits(s[1..], n - Width(s[0]))
  {
    var rest, m := s[1..], n - Width(s[0]);
    if i :| 0 <= i < |rest| && ByteLength(rest[..i]) < m < ByteLength(rest[..i + 1]) {
      PrefixBytes(s, i + 1);
      PrefixBytes(s, i + 2);
      assert ByteLength(s[..i + 1]) < n < ByteLength(s[..i + 2]);
    }
    if i :| 0 <= i < |s| && ByteLength(s[..i]) < n < ByteLength(s[..i + 1]) {
      PrefixBytes(s, i + 1);
      if i > 0 {
        PrefixBytes(s, i);
        assert ByteLength(rest[..i - 1]) < m < ByteLength(rest[..i]);
      }
    }
  }

  /** Within the text, an offset starts no character exactly when it splits one. */
  lemma {:induction false} CharAtNoneIff(s: string, n: nat)
    requires n <= ByteLength(s)
    ensures CharAt(s, n).None? <==> Splits(s, n)
  {
    if n > 0 {
      if n < Width(s[0]) {
        PrefixBytes(s, 1);
        assert s[1..][..0] == [] && s[..0] == [];
        assert ByteLength(s[..0]) < n < ByteLength(s[..0 + 1]);
      } else {
        SplitsFront(s, n);
        CharAtNoneIff(s[1..], n - Width(s[0]));
      }
    }
  }

  predicate AsciiUpTo(s: string, n: nat)
  {
    n <= |s| && forall i | 0 <= i < n :: Width(s[i]) == 1
  }

  /** Behind ASCII characters, byte offsets are those of the rest. */
  lemma {:induction false} BehindAscii(s: string, n: nat, m: nat)
    requires AsciiUpTo(s, n)
    ensures ByteLength(s) == n + ByteLength(s[n..])
    ensures var rest := CharAt(s[n..], m);
            CharAt(s, n + m) == if rest.Some? then Some(n + rest.value) else None
  {
    if n > 0 {
      BehindAscii(s[1..], n - 1, m);
      assert s[1..][n - 1..] == s[n..];
    } else {
      assert s[0..] == s;
    }
  }

  /** Two bytes from the start: two ASCII characters, one two-byte character, or a panic. */
  lemma FirstTwoBytes(s: string)
    requires ByteLength(s) >= 2
    ensures s != [] && (Width(s[0]) == 1 ==> |s| >= 2)
    ensures CharAt(s, 2) == if Width(s[0]) == 2 then Some(1)
                            else if Width(s[0]) == 1 && Width(s[1]) == 1 then Some(2)
                            else None
  {
    if Width(s[0]) == 1 {
      assert s[1..] != [];
      assert s[1..][0] == s[1];
      assert CharAt(s[1..], 1) == if Width(s[1]) == 1 then Some(1) else None;
    }
  }

  lemma {:induction false} WideLength(s: string)
    requires forall i | 0 <= i < |s| :: Width(s[i]) >= 2
    ensures ByteLength(s) >= 2 * |s|
  {
    if s != [] {
      WideLength(s[1..]);
    }
  }

  // ---------------------------------------------------------------- characters

  const HEX_CHARS: string := "0123456789abcdef"

  predicate IsHexDigit(c: char)
  {
    '0' <= c <= '9' || 'a' <= c <= 'f' || 'A' <= c <= 'F'
  }

  predicate IsLowerHex(c: char)
  {
    '0' <= c <= '9' || 'a' <= c <= 'f'
  }

  function HexValue(c: char): (v: nat)
    requires IsHexDigit(c)
    ensures v < 16
  {
    if '0' <= c <= '9' then c as int - '0' as int
    else if 'a' <= c <= 'f' then c as int - 'a' as int + 10
    else c as int - 'A' as int + 10
  }

  function ToLower(c: char): char
  {
    if 'A' <= c <= 'Z' then (c as int + 32) as char else c
  }

  /** A capital becomes the small letter at its place in the alphabet; nothing else changes. */
  lemma LowerIs(c: char)
    ensures if 'A' <= c <= 'Z' then ToLower(c) as int - 'a' as int == c as int - 'A' as int else ToLower(c) == c
  {
  }

  function LowerAll(s: string): (r: string)
    ensures |r| == |s| && forall i | 0 <= i < |s| :: r[i] == ToLower(s[i])
  {
    seq(|s|, i requires 0 <= i < |s| => ToLower(s[i]))
  }

  lemma HexDigitOfValue(c: char)
    requires IsHexDigit(c)
    ensures HEX_CHARS[HexValue(c)] == ToLower(c)
  {
  }

  lemma ValueOfHexDigit(v: nat)
    requires v < 16
    ensures IsLowerHex(HEX_CHARS[v]) && HexValue(HEX_CHARS[v]) == v
  {
  }

  lemma LowerFixed(s: string)
    requires forall i | 0 <= i < |s| :: IsLowerHex(s[i])
    ensures LowerAll(s) == s
  {
  }

  // ---------------------------------------------------------------- cleaning

  function DropHashes(s: string): string
  {
    if s != [] && s[0] == '#' then DropHashes(s[1..]) else s
  }

  function Clean(s: string): string
  {
    Chunking.Trim(DropHashes(s))
  }

  lemma CleanFixed(s: string)
    requires s != [] && s[0] != '#' && !Chunking.IsWhitespace(s[0]) && !Chunking.IsWhitespace(s[|s| - 1])
    ensures Clean(s) == s
  {
    assert s[0..] == s;
    assert s[..|s| - 0] == s;
  }

  lemma CleanHex(s: string)
    requires s != [] && forall i | 0 <= i < |s| :: IsHexDigit(s[i])
    ensures Clean(s) == s
  {
    CleanFixed(s);
  }

  // ---------------------------------------------------------------- parsing and printing

  /** `u8::from_str_radix` on two characters: it allows a plus sign in front. */
  function ParsePair(a: char, b: char): (r: Option<Byte>)
    ensures r.Some? <==> (IsHexDigit(a) || a == '+') && IsHexDigit(b)
    ensures r.Some? ==> r.value as int == (if a == '+' then 0 else 16 * HexValue(a)) + HexValue(b)
  {
    if !IsHexDigit(b) then None
    else if a == '+' then Some(HexValue(b) as Byte)
    else if IsHexDigit(a) then Some((16 * HexValue(a) + HexValue(b)) as Byte)
    else None
  }

  predicate PairOk(clean: string, i: nat)
  {
    2 * i + 1 < |clean| && ParsePair(clean[2 * i], clean[2 * i + 1]).Some?
  }

  /** The first n pairs of characters parse. */
  predicate PairsOk(clean: string, n: nat)
  {
    forall i: nat | i < n :: PairOk(clean, i)
  }

  function PairAt(clean: string, i: nat): (b: Byte)
    requires PairOk(clean, i)
  {
    ParsePair(clean[2 * i], clean[2 * i + 1]).value
  }

  function BytesOf(clean: string): (id: DocId)
    requires PairsOk(clean, 6)
    ensures forall i: nat | i < 6 :: 2 * i + 1 < |clean| && Some(id[i]) == ParsePair(clean[2 * i], clean[2 * i + 1])
  {
    assert forall i: nat | i < 6 :: PairOk(clean, i);
    [PairAt(clean, 0), PairAt(clean, 1), PairAt(clean, 2), PairAt(clean, 3), PairAt(clean, 4), PairAt(clean, 5)]
  }

  /** `u8::from_str_radix` on a slice of two bytes. */
  function Radix(chunk: string): Option<Byte>
  {
    if |chunk| == 2 then ParsePair(chunk[0], chunk[1]) else None
  }

  datatype Turn = Crash | Reject | Accept(byte: Byte)

  /** One turn of the parsing loop. */
  function TurnAt(clean: string, i: nat): Turn
  {
    var chunk := SliceBytes(clean, 2 * i, 2 * i + 2);
    if chunk.None? then Crash
    else if Radix(chunk.value).None? then Reject
    else Accept(Radix(chunk.value).value)
  }

  /** Where the parser panics: a slice of two bytes at pair i would end inside a character. */
  predicate CutsCharacter(clean: string, i: nat)
  {
    && 2 * i < |clean|
    && (Width(clean[2 * i]) >= 3
        || (Width(clean[2 * i]) == 1 && 2 * i + 1 < |clean| && Width(clean[2 * i + 1]) >= 2))
  }

  lemma PairsAreAscii(clean: string, n: nat)
    requires PairsOk(clean, n)
    ensures AsciiUpTo(clean, 2 * n)
  {
    forall i | 0 <= i < 2 * n ensures i < |clean| && Width(clean[i]) == 1 {
      assert PairOk(clean, i / 2);
      assert i == 2 * (i / 2) || i == 2 * (i / 2) + 1;
    }
    if n > 0 {
      assert PairOk(clean, n - 1);
    }
  }

  lemma OffsetsBehindAscii(s: string, n: nat)
    requires AsciiUpTo(s, n) && ByteLength(s) >= n + 2
    ensures n < |s| && (Width(s[n]) == 1 ==> n + 1 < |s|)
    ensures CharAt(s, n) == Some(n)
    ensures CharAt(s, n + 2) == if Width(s[n]) == 2 then Some(n + 1)
                                else if Width(s[n]) == 1 && Width(s[n + 1]) == 1 then Some(n + 2)
                                else None
  {
    BehindAscii(s, n, 0);
    BehindAscii(s, n, 2);
    FirstTwoBytes(s[n..]);
  }

  /** What the two bytes behind ASCII characters are. */
  lemma SliceBehindAscii(s: string, n: nat)
    requires AsciiUpTo(s, n) && ByteLength(s) >= n + 2
    ensures n < |s| && (Width(s[n]) == 1 ==> n + 1 < |s|)
    ensures SliceBytes(s, n, n + 2) == if Width(s[n]) == 2 then Some(s[n..n + 1])
                                       else if Width(s[n]) == 1 && Width(s[n + 1]) == 1 then Some(s[n..n + 2])
                                       else None
  {
    OffsetsBehindAscii(s, n);
  }

  /** Behind pairs that parse, a turn accepts a pair that parses, panics on a cut character, and rejects the rest. */
  lemma TurnIs(clean: string, i: nat)
    requires i < 6 && PairsOk(clean, i) && ByteLength(clean) >= 12
    ensures TurnAt(clean, i) == if PairOk(clean, i) then Accept(PairAt(clean, i))
                                else if CutsCharacter(clean, i) then Crash
                                else Reject
  {
    PairsAreAscii(clean, i);
    var n := 2 * i;
    SliceBehindAscii(clean, n);
    var chunk := SliceBytes(clean, n, n + 2);
    if chunk.Some? && |chunk.value| == 2 {
      assert chunk.value[0] == clean[n] && chunk.value[1] == clean[n + 1];
      assert Radix(chunk.value) == ParsePair(clean[n], clean[n + 1]);
    }
    assert PairOk(clean, i) ==> Width(clean[n]) == 1 && Width(clean[n + 1]) == 1;
  }

  /** What `from_hex` does with any text. */
  function Parsed(s: string): Outcome<Result<DocId, DocIdError>>
  {
    var clean := Clean(s);
    if clean == [] then Returns(Err(Empty))
    else if ByteLength(clean) < 12 then Returns(Err(LengthMismatch(12, ByteLength(clean))))
    else if PairsOk(clean, 6) then Returns(Ok(BytesOf(clean)))
    else
      var i := FirstBadPair(clean, 0);
      if CutsCharacter(clean, i) then Panics else Returns(Err(InvalidFormat))
  }

  function FirstBadPair(clean: string, from: nat): (i: nat)
    requires from <= 6 && PairsOk(clean, from) && !PairsOk(clean, 6)
    ensures i < 6 && PairsOk(clean, i) && !PairOk(clean, i)
    decreases 6 - from
  {
    if !PairOk(clean, from) then (assert from < 6; from)
    else (assert PairsOk(clean, from + 1); FirstBadPair(clean, from + 1))
  }

  /** Exactly when parsing panics: every pair before it parses and the next two bytes cut a character. */
  lemma FromHexPanicsIff(s: string)
    ensures Parsed(s).Panics? <==>
            ByteLength(Clean(s)) >= 12 && exists i: nat | i < 6 :: PairsOk(Clean(s), i) && CutsCharacter(Clean(s), i)
  {
    var clean := Clean(s);
    if i: nat :| i < 6 && PairsOk(clean, i) && CutsCharacter(clean, i) {
      assert !PairOk(clean, i);
      if !PairsOk(clean, 6) {
        var j := FirstBadPair(clean, 0);
        assert i == j;
      }
    }
  }

  /** An input on which it does: one ASCII character and then wider ones. */
  lemma WideCharacterPanics()
    ensures Parsed("a\U{E9}\U{E9}\U{E9}\U{E9}\U{E9}\U{E9}").Panics?
  {
    var s := "a\U{E9}\U{E9}\U{E9}\U{E9}\U{E9}\U{E9}";
    CleanFixed(s);
    BehindAscii(s, 1, 0);
    WideLength(s[1..]);
    assert CutsCharacter(s, 0) && PairsOk(s, 0);
    FromHexPanicsIff(s);
  }

  /** The loop over six slices of two bytes; a panic ends it as an outcome. */
  method FromHex(s: string) returns (r: Outcome<Result<DocId, DocIdError>>)
    ensures r == Parsed(s)
  {
    var clean := Clean(s);
    if clean == [] {
      return Returns(Err(Empty));
    }
    if ByteLength(clean) < 12 {
      return Returns(Err(LengthMismatch(12, ByteLength(clean))));
    }
    var bytes: seq<Byte> := [];
    for i := 0 to 6
      invariant |bytes| == i && PairsOk(clean, i)
      invariant forall j: nat | j < i :: PairOk(clean, j) && bytes[j] == PairAt(clean, j)
    {
      TurnIs(clean, i);
      var turn := TurnAt(clean, i);
      if !turn.Accept? {
        assert !PairOk(clean, i);
        assert FirstBadPair(clean, 0) == i;
        return if turn.Crash? then Panics else Returns(Err(InvalidFormat));
      }
      bytes := bytes + [turn.byte];
    }
    assert bytes == BytesOf(clean);
    r := Returns(Ok(bytes));
  }

  function Printed(id: DocId): (s: string)
    ensures |s| == 12
  {
    seq(12, i requires 0 <= i < 12 =>
      HEX_CHARS[if i % 2 == 0 then id[i / 2] as int / 16 else id[i / 2] as int % 16])
  }

  method Print(id: DocId) returns (s: string)
    ensures s == Printed(id)
  {
    s := [];
    for i := 0 to 6
      invariant s == Printed(id)[..2 * i]
    {
      s := s + [HEX_CHARS[id[i] as int / 16]];
      s := s + [HEX_CHARS[id[i] as int % 16]];
    }
  }

  function FirstTwelve(s: string): string
  {
    if |s| > 12 then s[..12] else s
  }

  type Lowering = string -> string

  /** Lower-casing is left open beyond ASCII. */
  ghost predicate LowersAscii(lower: Lowering)
  {
    forall s: string | AsciiUpTo(s, |s|) :: lower(s) == LowerAll(s)
  }

  /** The first twelve characters after cleaning, in lower case. */
  function Normalized(s: string, lower: Lowering): string
  {
    lower(FirstTwelve(Clean(s)))
  }

  /** Looks at the first twelve bytes; cutting a character panics. */
  function Validated(s: string): Outcome<bool>
  {
    var clean := Clean(s);
    if ByteLength(clean) < 12 then Returns(false)
    else
      var head := SliceBytes(clean, 0, 12);
      if head.None? then Panics else Returns(forall i | 0 <= i < |head.value| :: IsHexDigit(head.value[i]))
  }

  /** The id in the first twelve bytes of a hash. */
  function FromHash(hash: string): Outcome<Result<DocId, DocIdError>>
  {
    if ByteLength(hash) < 12 then Returns(Err(LengthMismatch(12, ByteLength(hash))))
    else
      var head := SliceBytes(hash, 0, 12);
      if head.None? then Panics else Parsed(head.value)
  }

  /** Falls back to the raw first twelve characters when the hash does not parse. */
  function GetDocId(hash: string): Outcome<string>
  {
    match FromHash(hash)
    case Panics => Panics
    case Returns(Ok(id)) => Returns(Printed(id))
    case Returns(Err(_)) => Returns(FirstTwelve(hash))
  }

  /** Exactly when validation panics: the twelfth byte is not the last of its character. */
  lemma ValidatePanicsIff(s: string)
    ensures Validated(s).Panics? <==> ByteLength(Clean(s)) >= 12 && Splits(Clean(s), 12)
  {
    var clean := Clean(s);
    if ByteLength(clean) >= 12 {
      CharAtNoneIff(clean, 12);
    }
  }

  /** Cleaning that takes no byte away takes nothing away. */
  lemma {:induction false} CleanLength(s: string)
    ensures ByteLength(Clean(s)) <= ByteLength(s)
    ensures ByteLength(Clean(s)) == ByteLength(s) ==> Clean(s) == s
  {
    DropHashesLength(s);
    var t := DropHashes(s);
    var lead := Chunking.LeadCount(t);
    var left := t[lead..];
    var tail := Chunking.TailCount(left);
    BytesSplit(t, lead);
    BytesSplit(left, |left| - tail);
  }

  lemma {:induction false} BytesSplit(s: string, i: nat)
    requires i <= |s|
    ensures ByteLength(s) == ByteLength(s[..i]) + ByteLength(s[i..])
    ensures ByteLength(s[..i]) >= i && ByteLength(s[i..]) >= |s| - i
  {
    if i > 0 {
      BytesSplit(s[1..], i - 1);
      PrefixBytes(s, i);
      assert s[1..][i - 1..] == s[i..];
    } else {
      assert s[..0] == [] && s[0..] == s;
      if s != [] {
        BytesSplit(s[1..], 0);
        assert s[1..][0..] == s[1..];
      }
    }
  }

  lemma {:induction false} DropHashesLength(s: string)
    ensures ByteLength(DropHashes(s)) <= ByteLength(s)
    ensures ByteLength(DropHashes(s)) == ByteLength(s) ==> DropHashes(s) == s
  {
    if s != [] && s[0] == '#' {
      DropHashesLength(s[1..]);
    }
  }

  /** A text of twelve bytes that parses up to a pair at which two bytes cut a character. */
  predicate HeadCuts(head: string)
  {
    && ByteLength(head) == 12 && Clean(head) == head
    && exists i: nat | i < 6 :: PairsOk(head, i) && CutsCharacter(head, i)
  }

  /**
   Exactly when taking the id of a hash panics: the twelfth byte is not the last of its character, or
   there is nothing to clean away from the first twelve bytes and parsing them panics.
   */
  lemma GetDocIdPanicsIff(hash: string)
    ensures GetDocId(hash).Panics? <==>
            ByteLength(hash) >= 12 && (Splits(hash, 12) || exists n | 0 <= n <= |hash| :: HeadCuts(hash[..n]))
  {
    if ByteLength(hash) >= 12 {
      CharAtNoneIff(hash, 12);
      if CharAt(hash, 12).Some? {
        HashHeadPanicsIff(hash, CharAt(hash, 12).value);
      }
    }
  }

  lemma HashHeadPanicsIff(hash: string, k: nat)
    requires ByteLength(hash) >= 12 && CharAt(hash, 12) == Some(k) && k <= |hash|
    ensures FromHash(hash).Panics? <==> exists n | 0 <= n <= |hash| :: HeadCuts(hash[..n])
  {
    CharAtOffset(hash, 12);
    SliceFromStart(hash, 12, k);
    HeadPanicsIff(hash[..k]);
    OffsetUnique(hash, k);
  }

  lemma SliceFromStart(s: string, n: nat, k: nat)
    requires CharAt(s, n) == Some(k) && k <= |s|
    ensures SliceBytes(s, 0, n) == Some(s[..k])
  {
  }

  /** Only one beginning of the text has a given number of bytes. */
  lemma OffsetUnique(s: string, k: nat)
    requires k <= |s|
    ensures forall n | 0 <= n <= |s| && ByteLength(s[..n]) == ByteLength(s[..k]) :: n == k
  {
    forall n | 0 <= n <= |s| && ByteLength(s[..n]) == ByteLength(s[..k]) ensures n == k {
      if n < k {
        OffsetsDiffer(s, n, k);
      } else if k < n {
        OffsetsDiffer(s, k, n);
      }
    }
  }

  lemma OffsetsDiffer(s: string, i: nat, j: nat)
    requires i < j <= |s|
    ensures ByteLength(s[..i]) < ByteLength(s[..j])
  {
    BytesSplit(s[..j], i);
    assert s[..j][..i] == s[..i];
  }

  lemma HeadPanicsIff(head: string)
    requires ByteLength(head) == 12
    ensures Parsed(head).Panics? <==> HeadCuts(head)
  {
    FromHexPanicsIff(head);
    CleanLength(head);
  }

  predicate Valid(s: string)
  {
    Validated(s) == Returns(true)
  }

  predicate HexUpTo(s: string, n: nat)
  {
    n <= |s| && forall i | 0 <= i < n :: IsHexDigit(s[i])
  }

  /** The first twelve bytes are all hex digits exactly when the first twelve characters are. */
  lemma ValidIsHex(s: string)
    ensures Valid(s) <==> HexUpTo(Clean(s), 12)
  {
    var clean := Clean(s);
    if HexUpTo(clean, 12) {
      BehindAscii(clean, 12, 0);
    }
    if Valid(s) {
      SliceIsHex(clean, 12, CharAt(clean, 12).value);
    }
  }

  /** Characters up to a byte offset, all ASCII: as many characters as bytes. */
  lemma {:induction false} SliceIsHex(s: string, n: nat, k: nat)
    requires CharAt(s, n) == Some(k) && k <= |s| && forall i | 0 <= i < k :: Width(s[i]) == 1
    ensures k == n
  {
    if n > 0 {
      SliceIsHex(s[1..], n - 1, k - 1);
    }
  }

  // ---------------------------------------------------------------- round trips

  lemma PrintedDigit(id: DocId, i: nat)
    requires i < 6
    ensures Printed(id)[2 * i] == HEX_CHARS[id[i] as int / 16]
    ensures Printed(id)[2 * i + 1] == HEX_CHARS[id[i] as int % 16]
    ensures IsLowerHex(Printed(id)[2 * i]) && IsLowerHex(Printed(id)[2 * i + 1])
  {
    ValueOfHexDigit(id[i] as int / 16);
    ValueOfHexDigit(id[i] as int % 16);
  }

  lemma PrintedIsHex(id: DocId)
    ensures forall i | 0 <= i < 12 :: IsLowerHex(Printed(id)[i])
  {
    forall i | 0 <= i < 12 ensures IsLowerHex(Printed(id)[i]) {
      PrintedDigit(id, i / 2);
    }
  }

  lemma PairParsesBack(b: Byte)
    ensures ParsePair(HEX_CHARS[b as int / 16], HEX_CHARS[b as int % 16]) == Some(b)
  {
    ValueOfHexDigit(b as int / 16);
    ValueOfHexDigit(b as int % 16);
  }

  lemma PrintedPairParses(id: DocId, i: nat)
    requires i < 6
    ensures PairOk(Printed(id), i) && PairAt(Printed(id), i) == id[i]
  {
    PrintedDigit(id, i);
    PairParsesBack(id[i]);
  }

  lemma SameBytes(id: DocId, clean: string)
    requires forall i: nat | i < 6 :: PairOk(clean, i) && PairAt(clean, i) == id[i]
    ensures BytesOf(clean) == id
  {
  }

  /** Parsing what was printed gives the same six bytes. */
  lemma ParsePrinted(id: DocId)
    ensures Parsed(Printed(id)) == Returns(Ok(id))
  {
    var s := Printed(id);
    PrintedIsHex(id);
    CleanHex(s);
    AsciiHead(s);
    forall i: nat | i < 6 ensures PairOk(s, i) && PairAt(s, i) == id[i] {
      PrintedPairParses(id, i);
    }
    SameBytes(id, s);
  }

  lemma Nibbles(high: nat, low: nat)
    requires high < 16 && low < 16
    ensures (16 * high + low) / 16 == high && (16 * high + low) % 16 == low
  {
  }

  /** One pair, parsed and printed: the digits come back, except that a plus sign comes back as zero. */
  lemma PairPrintsBack(a: char, b: char, byte: Byte)
    requires ParsePair(a, b) == Some(byte)
    ensures HEX_CHARS[byte as int % 16] == ToLower(b)
    ensures HEX_CHARS[byte as int / 16] == ToLower(a) <==> a != '+'
  {
    var high := if a == '+' then 0 else HexValue(a);
    Nibbles(high, HexValue(b));
    assert byte as int / 16 == high && byte as int % 16 == HexValue(b);
    HexDigitOfValue(b);
    if a != '+' {
      HexDigitOfValue(a);
    }
  }

  lemma PrintedPair(clean: string, i: nat)
    requires |clean| >= 12 && PairsOk(clean, 6) && i < 6
    ensures var p := Printed(BytesOf(clean));
            && p[2 * i + 1] == ToLower(clean[2 * i + 1])
            && (p[2 * i] == ToLower(clean[2 * i]) <==> clean[2 * i] != '+')
  {
    PrintedDigit(BytesOf(clean), i);
    PairPrintsBack(clean[2 * i], clean[2 * i + 1], BytesOf(clean)[i]);
  }

  lemma HexPairs(clean: string)
    requires HexUpTo(clean, 12)
    ensures PairsOk(clean, 6) && ByteLength(clean) >= 12
  {
    forall i: nat | i < 6 ensures PairOk(clean, i) {}
    BehindAscii(clean, 12, 0);
  }

  /** A parsed text whose pairs print back as it was, in lower case. */
  lemma PrintsNormal(s: string, lower: Lowering)
    requires LowersAscii(lower) && PairsOk(Clean(s), 6)
    ensures Printed(BytesOf(Clean(s))) == Normalized(s, lower) <==> HexUpTo(Clean(s), 12)
  {
    var clean := Clean(s);
    PairsAreAscii(clean, 6);
    var head := FirstTwelve(clean);
    assert head == clean[..12];
    assert AsciiUpTo(head, |head|);
    PrintsBackIff(clean);
  }

  /** The text parses, and its bytes print as its normal form. */
  predicate PrintsBack(s: string, lower: Lowering, id: DocId)
  {
    Parsed(s) == Returns(Ok(id)) && Printed(id) == Normalized(s, lower)
  }

  /**
   `validate_docid` accepts exactly the inputs that parse and print back to their normal form. The
   parser alone accepts more: a plus sign may stand in for a leading zero.
   */
  lemma ValidIff(s: string, lower: Lowering)
    requires LowersAscii(lower)
    ensures Valid(s) <==>
            exists id: DocId :: PrintsBack(s, lower, id)
  {
    ValidIsHex(s);
    if HexUpTo(Clean(s), 12) {
      HexPrintsBack(s, lower);
    }
    if id: DocId :| PrintsBack(s, lower, id) {
      PrintedIsHexText(s, lower, id);
    }
  }

  lemma PrintedIsHexText(s: string, lower: Lowering, id: DocId)
    requires LowersAscii(lower) && PrintsBack(s, lower, id)
    ensures HexUpTo(Clean(s), 12)
  {
    ParsedBytes(s, id);
    PrintsNormal(s, lower);
  }

  lemma HexPrintsBack(s: string, lower: Lowering)
    requires LowersAscii(lower) && HexUpTo(Clean(s), 12)
    ensures PairsOk(Clean(s), 6) && PrintsBack(s, lower, BytesOf(Clean(s)))
  {
    HexPairs(Clean(s));
    PrintsNormal(s, lower);
  }

  lemma ParsedBytes(s: string, id: DocId)
    requires Parsed(s) == Returns(Ok(id))
    ensures PairsOk(Clean(s), 6) && id == BytesOf(Clean(s))
  {
  }

  /** One position of the printed id: odd ones always print back, even ones when they are digits. */
  lemma PrintsBackAt(clean: string, i: nat)
    requires |clean| >= 12 && PairsOk(clean, 6) && i < 12
    ensures Printed(BytesOf(clean))[i] == ToLower(clean[i]) <==> IsHexDigit(clean[i])
  {
    var h := i / 2;
    assert PairOk(clean, h);
    PrintedPair(clean, h);
    assert i == 2 * h || i == 2 * h + 1;
  }

  lemma PrintsBackIff(clean: string)
    requires |clean| >= 12 && PairsOk(clean, 6)
    ensures Printed(BytesOf(clean)) == LowerAll(clean[..12]) <==> HexUpTo(clean, 12)
  {
    var p, q := Printed(BytesOf(clean)), LowerAll(clean[..12]);
    forall i | 0 <= i < 12 ensures p[i] == q[i] <==> IsHexDigit(clean[i]) {
      PrintsBackAt(clean, i);
    }
    if HexUpTo(clean, 12) {
      assert p == q;
    }
  }

  predicate PlusPair(s: string, i: nat)
  {
    2 * i + 1 < |s| && s[2 * i] == '+' && IsHexDigit(s[2 * i + 1])
  }

  /** What the parser accepts and the validator does not: pairs with a plus sign. */
  lemma PlusPairsParse(s: string)
    requires |s| == 12 && forall i: nat | i < 6 :: PlusPair(s, i)
    ensures Parsed(s).Returns? && Parsed(s).value.Ok? && !Valid(s)
  {
    forall i: nat | i < 6 ensures PairOk(s, i) { assert PlusPair(s, i); }
    assert PlusPair(s, 0) && PlusPair(s, 5);
    CleanFixed(s);
    PairsAreAscii(s, 6);
    BehindAscii(s, 12, 0);
    ValidIsHex(s);
  }

  lemma PlusSignParses()
    ensures Parsed("+a+b+c+d+e+f").Returns? && Parsed("+a+b+c+d+e+f").value.Ok? && !Valid("+a+b+c+d+e+f")
  {
    var s := "+a+b+c+d+e+f";
    assert PlusPair(s, 0) && PlusPair(s, 1) && PlusPair(s, 2) && PlusPair(s, 3) && PlusPair(s, 4) && PlusPair(s, 5);
    PlusPairsParse(s);
  }

  lemma LowerNormal(s: string, lower: Lowering)
    requires LowersAscii(lower) && |s| == 12 && HexUpTo(s, 12) && LowerAll(s) == s
    ensures Valid(s) && Normalized(s, lower) == s
  {
    CleanHex(s);
    ValidIsHex(s);
    assert AsciiUpTo(s, |s|);
  }

  lemma AsciiHead(s: string)
    requires AsciiUpTo(s, 12)
    ensures ByteLength(s) >= 12 && SliceBytes(s, 0, 12) == Some(s[..12])
  {
    BehindAscii(s, 12, 0);
  }

  /** The id of a hash in lower-case hex is its first twelve digits, which are valid and already normal. */
  lemma DocIdOfHash(hash: string, lower: Lowering)
    requires LowersAscii(lower) && |hash| >= 12 && forall i | 0 <= i < |hash| :: IsLowerHex(hash[i])
    ensures GetDocId(hash) == Returns(hash[..12])
    ensures Valid(hash[..12]) && Normalized(hash[..12], lower) == hash[..12]
  {
    var h := hash[..12];
    LowerFixed(h);
    LowerNormal(h, lower);
    ValidIff(h, lower);
    var id: DocId :| PrintsBack(h, lower, id);
    AsciiHead(hash);
  }

  /** Normalizing twice is normalizing once, for every accepted id. */
  lemma NormalizedIsFixed(s: string, lower: Lowering)
    requires LowersAscii(lower) && Valid(s)
    ensures Valid(Normalized(s, lower)) && Normalized(Normalized(s, lower), lower) == Normalized(s, lower)
  {
    ValidIff(s, lower);
    var id: DocId :| PrintsBack(s, lower, id);
    PrintedIsHex(id);
    LowerFixed(Printed(id));
    LowerNormal(Printed(id), lower);
  }

  // ---------------------------------------------------------------- what cleaning takes away

  predicate Blank(s: string)
  {
    forall i | 0 <= i < |s| :: Chunking.IsWhitespace(s[i])
  }

  /** One more '#' in front makes no difference to parsing, validation or normal form. */
  lemma HashIgnored(s: string, lower: Lowering)
    ensures Parsed("#" + s) == Parsed(s)
    ensures Validated("#" + s) == Validated(s)
    ensures Normalized("#" + s, lower) == Normalized(s, lower)
  {
    assert ("#" + s)[1..] == s;
    assert Clean("#" + s) == Clean(s);
  }

  lemma {:induction false} LeadOfBlank(w: string, s: string)
    requires Blank(w)
    ensures Chunking.LeadCount(w + s) == |w| + Chunking.LeadCount(s)
  {
    if w == [] {
      assert w + s == s;
    } else {
      assert (w + s)[1..] == w[1..] + s;
      LeadOfBlank(w[1..], s);
    }
  }

  lemma {:induction false} TailOfBlank(s: string, w: string)
    requires Blank(w)
    ensures Chunking.TailCount(s + w) == |w| + Chunking.TailCount(s)
  {
    if w == [] {
      assert s + w == s;
    } else {
      assert (s + w)[..|s + w| - 1] == s + w[..|w| - 1];
      TailOfBlank(s, w[..|w| - 1]);
    }
  }

  lemma {:induction false} AllLead(s: string)
    requires Blank(s)
    ensures Chunking.LeadCount(s) == |s|
  {
    LeadOfBlank(s, []);
    assert s + [] == s;
  }

  lemma TrimBlankFront(w: string, s: string)
    requires Blank(w)
    ensures Chunking.Trim(w + s) == Chunking.Trim(s)
  {
    LeadOfBlank(w, s);
    assert (w + s)[|w| + Chunking.LeadCount(s)..] == s[Chunking.LeadCount(s)..];
  }

  lemma {:induction false} LeadBeforeVisible(s: string, w: string)
    requires !Blank(s)
    ensures Chunking.LeadCount(s + w) == Chunking.LeadCount(s) < |s|
  {
    assert (s + w)[0] == s[0];
    if Chunking.IsWhitespace(s[0]) {
      assert (s + w)[1..] == s[1..] + w;
      var i :| 0 <= i < |s| && !Chunking.IsWhitespace(s[i]);
      assert s[1..][i - 1] == s[i];
      LeadBeforeVisible(s[1..], w);
    }
  }

  lemma SliceOfConcat(s: string, w: string, n: nat)
    requires n <= |s|
    ensures (s + w)[n..] == s[n..] + w && (s + w)[..n] == s[..n]
  {
  }

  lemma TrimOfVisible(s: string, w: string)
    requires Blank(w) && !Blank(s)
    ensures Chunking.Trim(s + w) == Chunking.Trim(s)
  {
    LeadBeforeVisible(s, w);
    var n := Chunking.LeadCount(s);
    var rest := s[n..];
    SliceOfConcat(s, w, n);
    TailOfBlank(rest, w);
    var k := |rest| - Chunking.TailCount(rest);
    TrimFrom(s, n, rest, k);
    TrimFrom(s + w, n, rest + w, k);
    SliceOfConcat(rest, w, k);
  }

  lemma TrimFrom(s: string, n: nat, rest: string, k: nat)
    requires n == Chunking.LeadCount(s) && rest == s[n..] && k == |rest| - Chunking.TailCount(rest)
    ensures Chunking.Trim(s) == rest[..k]
  {
  }

  lemma TrimBlankBack(s: string, w: string)
    requires Blank(w)
    ensures Chunking.Trim(s + w) == Chunking.Trim(s)
  {
    if Blank(s) {
      TrimEmptyIff(s);
      TrimEmptyIff(s + w);
    } else {
      TrimOfVisible(s, w);
    }
  }

  lemma {:induction false} HashesBeforeBlank(s: string, w: string)
    requires Blank(w)
    ensures DropHashes(s + w) == DropHashes(s) + w
  {
    if s == [] {
      assert s + w == w;
    } else {
      assert (s + w)[0] == s[0];
      if s[0] == '#' {
        assert (s + w)[1..] == s[1..] + w;
        HashesBeforeBlank(s[1..], w);
      }
    }
  }

  /** Whitespace behind makes no difference. */
  lemma BlankBehindIgnored(s: string, w: string, lower: Lowering)
    requires Blank(w)
    ensures Parsed(s + w) == Parsed(s)
    ensures Validated(s + w) == Validated(s)
    ensures Normalized(s + w, lower) == Normalized(s, lower)
  {
    HashesBeforeBlank(s, w);
    TrimBlankBack(DropHashes(s), w);
    assert Clean(s + w) == Clean(s);
  }

  /** Whitespace in front hides a '#' behind it: it makes no difference exactly when no '#' follows. */
  lemma BlankInFrontIgnoredIff(w: string, s: string)
    requires Blank(w) && w != []
    ensures Clean(w + s) == Clean(s) <==> !(s != [] && s[0] == '#')
  {
    assert (w + s)[0] == w[0];
    TrimBlankFront(w, s);
    if s != [] && s[0] == '#' {
      HashStaysInTrim(s);
    }
  }

  lemma {:induction false} VisibleHeadStays(s: string)
    requires s != [] && !Chunking.IsWhitespace(s[0])
    ensures Chunking.TailCount(s) < |s|
  {
    if |s| > 1 && Chunking.IsWhitespace(s[|s| - 1]) {
      VisibleHeadStays(s[..|s| - 1]);
    }
  }

  lemma TrimFixed(v: string)
    requires v != [] && !Chunking.IsWhitespace(v[0]) && !Chunking.IsWhitespace(v[|v| - 1])
    ensures Chunking.Trim(v) == v
  {
    assert v[0..] == v && v[..|v| - 0] == v;
  }

  lemma TrimNoLonger(s: string)
    ensures |Chunking.Trim(s)| <= |s|
  {
  }

  /** Up to its last visible character, a text that starts with '#' is what trimming leaves. */
  lemma VisiblePart(s: string) returns (v: string, w: string)
    requires s != [] && !Chunking.IsWhitespace(s[0])
    ensures s == v + w && Blank(w) && v != [] && v[0] == s[0] && !Chunking.IsWhitespace(v[|v| - 1])
  {
    VisibleHeadStays(s);
    Chunking.TailCountIsMaximal(s);
    var n := |s| - Chunking.TailCount(s);
    v, w := s[..n], s[n..];
    assert s == v + w;
    forall i | 0 <= i < |w| ensures Chunking.IsWhitespace(w[i]) { assert w[i] == s[n + i]; }
  }

  /** Trimming alone leaves more of such a text than dropping its '#' first. */
  lemma HashStaysInTrim(s: string)
    requires s != [] && s[0] == '#'
    ensures Chunking.Trim(s) != Chunking.Trim(DropHashes(s))
  {
    var v, w := VisiblePart(s);
    TrimBlankBack(v, w);
    TrimFixed(v);
    HashesBeforeBlank(v, w);
    TrimBlankBack(DropHashes(v), w);
    TrimNoLonger(DropHashes(v));
    var n := DropHashesIsSuffix(v);
  }

  lemma {:induction false} DropHashesIsSuffix(s: string) returns (n: nat)
    ensures n <= |s| && DropHashes(s) == s[n..]
    ensures s != [] && s[0] == '#' ==> n > 0
    ensures forall i | 0 <= i < n :: s[i] == '#'
    ensures n < |s| ==> s[n] != '#'
  {
    if s != [] && s[0] == '#' {
      n := DropHashesIsSuffix(s[1..]);
      assert s[1..][n..] == s[n + 1..];
      forall i | 0 <= i < n + 1 ensures s[i] == '#' {
        if i > 0 { assert s[i] == s[1..][i - 1]; }
      }
      n := n + 1;
    } else {
      n := 0;
    }
  }

  // ---------------------------------------------------------------- errors and examples

  /** The error of an empty input: nothing but '#' and then whitespace. */
  predicate NothingThere(s: string)
  {
    exists n | 0 <= n <= |s| :: (forall i | 0 <= i < n :: s[i] == '#') && Blank(s[n..])
  }

  lemma NothingThereIff(s: string)
    ensures NothingThere(s) <==> Blank(DropHashes(s))
  {
    var n := DropHashesIsSuffix(s);
    var t := s[n..];
    if k :| 0 <= k <= |s| && (forall i | 0 <= i < k :: s[i] == '#') && Blank(s[k..]) {
      assert k <= n;
      forall i | 0 <= i < |t| ensures Chunking.IsWhitespace(t[i]) { assert t[i] == s[k..][n - k + i]; }
    }
  }

  lemma EmptyWhenClean(s: string)
    ensures Parsed(s) == Returns(Err(Empty)) <==> Clean(s) == []
  {
  }

  lemma EmptyIff(s: string)
    ensures Parsed(s) == Returns(Err(Empty)) <==> NothingThere(s)
  {
    EmptyWhenClean(s);
    NothingThereIff(s);
    TrimEmptyIff(DropHashes(s));
  }

  lemma TrimEmptyIff(t: string)
    ensures Chunking.Trim(t) == [] <==> Blank(t)
  {
    if Blank(t) {
      AllLead(t);
    } else {
      LeadBeforeVisible(t, []);
      assert t + [] == t;
      Chunking.LeadCountIsMaximal(t);
      VisibleHeadStays(t[Chunking.LeadCount(t)..]);
    }
  }

  /** The length error gives the bytes there are, and comes exactly when there are some but fewer than twelve. */
  lemma LengthMismatchIff(s: string, expected: nat, actual: nat)
    ensures Parsed(s) == Returns(Err(LengthMismatch(expected, actual))) <==>
            expected == 12 && actual == ByteLength(Clean(s)) && 0 < actual < 12
  {
  }

  /** The i-th pair of digits has the value v, the higher digit first. */
  predicate PairIs(s: string, i: nat, v: nat)
  {
    2 * i + 1 < |s| && IsHexDigit(s[2 * i]) && IsHexDigit(s[2 * i + 1])
    && v == 16 * HexValue(s[2 * i]) + HexValue(s[2 * i + 1])
  }

  lemma HexParses(s: string, id: DocId)
    requires |s| == 12 && forall i: nat | i < 6 :: PairIs(s, i, id[i] as nat)
    ensures Parsed(s) == Returns(Ok(id))
  {
    forall i | 0 <= i < 12 ensures IsHexDigit(s[i]) {
      assert PairIs(s, i / 2, id[i / 2] as nat);
      assert i == 2 * (i / 2) || i == 2 * (i / 2) + 1;
    }
    CleanHex(s);
    HexPairs(s);
    forall i: nat | i < 6 ensures PairOk(s, i) && PairAt(s, i) == id[i] {
      assert PairIs(s, i, id[i] as nat);
    }
    SameBytes(id, s);
  }

  /** The digits mean what they always do. */
  lemma ParsedExample()
    ensures Parsed("0123456789ab") == Returns(Ok([0x01, 0x23, 0x45, 0x67, 0x89, 0xab]))
  {
    var s := "0123456789ab";
    assert PairIs(s, 0, 0x01) && PairIs(s, 1, 0x23) && PairIs(s, 2, 0x45);
    assert PairIs(s, 3, 0x67) && PairIs(s, 4, 0x89) && PairIs(s, 5, 0xab);
    HexParses(s, [0x01, 0x23, 0x45, 0x67, 0x89, 0xab]);
  }

  lemma ParsedUpperExample()
    ensures Parsed("cdefABCDEF00") == Returns(Ok([0xcd, 0xef, 0xab, 0xcd, 0xef, 0x00]))
  {
    var s := "cdefABCDEF00";
    assert PairIs(s, 0, 0xcd) && PairIs(s, 1, 0xef) && PairIs(s, 2, 0xab);
    assert PairIs(s, 3, 0xcd) && PairIs(s, 4, 0xef) && PairIs(s, 5, 0x00);
    HexParses(s, [0xcd, 0xef, 0xab, 0xcd, 0xef, 0x00]);
  }

  /** A hash of fewer than twelve bytes comes back whole. */
  lemma ShortHashIsKept(hash: string)
    requires ByteLength(hash) < 12
    ensures GetDocId(hash) == Returns(hash)
  {
    BytesSplit(hash, |hash|);
    assert hash[..|hash|] == hash;
  }

  /** A hash whose first twelve bytes do not parse is cut to its first twelve characters. */
  lemma UnparsedHashIsCut(hash: string, error: DocIdError)
    requires FromHash(hash) == Returns(Err(error))
    ensures GetDocId(hash) == Returns(if |hash| <= 12 then hash else hash[..12])
  {
  }
}
