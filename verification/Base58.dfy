/**
 Base58 and Base58Check for P2PKH addresses (demo/krackpot/src/reference/base58.js).
 SHA-256 is a parameter: any function from bytes to 32 bytes.
 */
module Base58 {
  import opened Positional

  datatype Result<T> = Ok(value: T) | Err(error: Error)

  datatype Error = InvalidChar(c: char) | TooShort | ChecksumMismatch | NotP2PKH | WrongVersion | WrongLength

  // ---- The alphabet ----

  // 58 digits in six runs of consecutive characters.
  const ALPHABET: string := "123456789" + "ABCDEFGH" + "JKLMN" + "PQRSTUVWXYZ" + "abcdefghijk" + "mnopqrstuvwxyz"

  // The character of digit d, computed from the runs.
  function Char(d: nat): char
    requires d < 58
  {
    if d < 9 then '1' + d as char
    else if d < 17 then 'A' + (d - 9) as char
    else if d < 22 then 'J' + (d - 17) as char
    else if d < 33 then 'P' + (d - 22) as char
    else if d < 44 then 'a' + (d - 33) as char
    else 'm' + (d - 44) as char
  }

  // The digit of a character, -1 for characters outside the alphabet.
  function DigitOf(c: char): (d: int)
    ensures -1 <= d < 58
    ensures d >= 0 ==> Char(d) == c
  {
    if '1' <= c <= '9' then c as int - '1' as int
    else if 'A' <= c <= 'H' then c as int - 'A' as int + 9
    else if 'J' <= c <= 'N' then c as int - 'J' as int + 17
    else if 'P' <= c <= 'Z' then c as int - 'P' as int + 22
    else if 'a' <= c <= 'k' then c as int - 'a' as int + 33
    else if 'm' <= c <= 'z' then c as int - 'm' as int + 44
    else -1
  }

  lemma DigitOfChar(d: nat)
    requires d < 58
    ensures DigitOf(Char(d)) == d
  {}

  // The alphabet is the digits and letters but 0, I, O and l, in the order of their codes.
  lemma CharAscends(d: nat, e: nat)
    requires d < 58 && e < 58
    ensures d < e <==> Char(d) < Char(e)
  {}

  lemma DigitsAndLetters(c: char)
    ensures DigitOf(c) >= 0 <==>
      ('0' <= c <= '9' || 'A' <= c <= 'Z' || 'a' <= c <= 'z') && c != '0' && c != 'I' && c != 'O' && c != 'l'
  {}

  ghost predicate Run(s: string, c: char) {
    forall i {:trigger s[i]} :: 0 <= i < |s| ==> s[i] as int == c as int + i
  }

  lemma AlphabetRuns()
    ensures Run("123456789", '1') && Run("ABCDEFGH", 'A') && Run("JKLMN", 'J')
    ensures Run("PQRSTUVWXYZ", 'P') && Run("abcdefghijk", 'a') && Run("mnopqrstuvwxyz", 'm')
  {}

  // Indexing the alphabet and searching it are these two functions.
  lemma AlphabetIsChar(d: nat)
    requires d < 58
    ensures |ALPHABET| == 58 && ALPHABET[d] == Char(d)
  {
    AlphabetRuns();
  }

  // ALPHABET.indexOf(c)
  lemma AlphabetSearch(c: char)
    ensures DigitOf(c) == -1 <==> c !in ALPHABET
    ensures DigitOf(c) >= 0 ==> DigitOf(c) < |ALPHABET| && ALPHABET[DigitOf(c)] == c
    ensures forall i :: 0 <= i < |ALPHABET| && ALPHABET[i] == c ==> i == DigitOf(c)
  {
    forall i | 0 <= i < |ALPHABET| ensures i < 58 && ALPHABET[i] == Char(i) && DigitOf(ALPHABET[i]) == i {
      AlphabetIsChar(0);
      AlphabetIsChar(i);
      DigitOfChar(i);
    }
    AlphabetIsChar(if DigitOf(c) >= 0 then DigitOf(c) else 0);
  }

  // ---- Base58 ----

  function Spell(ds: seq<nat>): (s: string)
    requires Digits(ds, 58)
    ensures |s| == |ds|
  {
    if ds == [] then "" else
      assert ds[0] in ds && forall d :: d in ds[1..] ==> d in ds;
      [Char(ds[0])] + Spell(ds[1..])
  }

  predicate OverAlphabet(s: string) {
    s == "" || (DigitOf(s[0]) >= 0 && OverAlphabet(s[1..]))
  }

  function Read(s: string): (ds: seq<nat>)
    requires OverAlphabet(s)
    ensures |ds| == |s| && Digits(ds, 58)
  {
    if s == "" then [] else
      var d: nat := DigitOf(s[0]);
      [d] + Read(s[1..])
  }

  lemma {:induction false} ReadSpell(ds: seq<nat>)
    requires Digits(ds, 58)
    ensures OverAlphabet(Spell(ds)) && Read(Spell(ds)) == ds
  {
    if ds != [] {
      assert ds[0] in ds && forall d :: d in ds[1..] ==> d in ds;
      assert Spell(ds)[1..] == Spell(ds[1..]);
      DigitOfChar(ds[0]);
      ReadSpell(ds[1..]);
    }
  }

  lemma {:induction false} SpellRead(s: string)
    requires OverAlphabet(s)
    ensures Spell(Read(s)) == s
  {
    if s != "" {
      SpellRead(s[1..]);
      assert Read(s)[1..] == Read(s[1..]);
    }
  }

  lemma SpellHead(d: nat, ds: seq<nat>)
    requires d < 58 && Digits(ds, 58)
    ensures Digits([d] + ds, 58) && Spell([d] + ds) == [Char(d)] + Spell(ds)
  {
    assert ([d] + ds)[1..] == ds;
  }

  lemma SpellHeadConcat(d: nat, ds: seq<nat>, es: seq<nat>)
    requires d < 58 && Digits(ds, 58) && Digits(es, 58) && Digits(ds + es, 58)
    requires Spell(ds + es) == Spell(ds) + Spell(es)
    ensures Digits([d] + ds, 58) && Digits([d] + (ds + es), 58)
    ensures Spell([d] + (ds + es)) == Spell([d] + ds) + Spell(es)
  {
    SpellHead(d, ds);
    SpellHead(d, ds + es);
  }

  lemma {:induction false} SpellConcat(ds: seq<nat>, es: seq<nat>)
    requires Digits(ds, 58) && Digits(es, 58)
    ensures Digits(ds + es, 58) && Spell(ds + es) == Spell(ds) + Spell(es)
  {
    if ds == [] {
      assert ds + es == es;
    } else {
      var d, rest := ds[0], ds[1..];
      assert d in ds && forall x :: x in rest ==> x in ds;
      SpellConcat(rest, es);
      SpellHeadConcat(d, rest, es);
      assert ds == [d] + rest;
      assert ds + es == [d] + (rest + es);
    }
  }

  lemma {:induction false} ReadSnoc(s: string, c: char)
    requires OverAlphabet(s) && DigitOf(c) >= 0
    ensures OverAlphabet(s + [c]) && Read(s + [c]) == Read(s) + [DigitOf(c)]
  {
    if s == "" {
      assert s + [c] == [c] && [c][1..] == "";
      assert Read([c]) == [DigitOf(c)] + Read("");
    } else {
      ReadSnoc(s[1..], c);
      assert (s + [c])[1..] == s[1..] + [c];
    }
  }

  function Encode(bytes: seq<byte>): string {
    Spell(Rebase(bytes, 256, 58))
  }

  ghost function Decode(s: string): Result<seq<byte>> {
    if OverAlphabet(s) then Ok(Bytes(Rebase(Read(s), 58, 256))) else Err(InvalidChar(FirstBad(s)))
  }

  ghost function FirstBad(s: string): (c: char)
    requires !OverAlphabet(s)
    ensures c in s && DigitOf(c) == -1
  {
    if DigitOf(s[0]) == -1 then s[0] else FirstBad(s[1..])
  }

  // ---- The loops of encode and decode ----

  method Base58Encode(bytes: seq<byte>) returns (s: string)
    ensures s == Encode(bytes)
  {
    var n := NumberOf(bytes);
    s := SpellNumber(n);
    s := PadOnes(bytes, s);
    SpellConcat(Zeros(LeadingZeros(bytes)), ToDigits(n, 58));
  }

  method SpellNumber(value: nat) returns (s: string)
    ensures s == Spell(ToDigits(value, 58))
  {
    var n := value;
    s := "";
    while n > 0
      invariant n >= 0 && Spell(ToDigits(value, 58)) == Spell(ToDigits(n, 58)) + s
    {
      var r := n % 58;
      SpellLast(n);
      n := n / 58;
      s := [Char(r)] + s;
    }
  }

  lemma SpellLast(n: nat)
    requires n > 0
    ensures Spell(ToDigits(n, 58)) == Spell(ToDigits(n / 58, 58)) + [Char(n % 58)]
  {
    DivSmaller(n, 58);
    SpellConcat(ToDigits(n / 58, 58), [n % 58]);
    assert [n % 58][1..] == [] && Spell([n % 58]) == [Char(n % 58)];
  }

  lemma SpellZero(k: nat)
    ensures Spell(Zeros(k + 1)) == "1" + Spell(Zeros(k))
  {
    assert Zeros(k + 1)[1..] == Zeros(k) && Char(0) == '1';
  }

  ghost function Ones(k: nat, s: string): string {
    Spell(Zeros(k)) + s
  }

  lemma OnesMore(k: nat, s: string)
    ensures "1" + Ones(k, s) == Ones(k + 1, s)
  {
    SpellZero(k);
  }

  method PadOnes(bytes: seq<byte>, s: string) returns (padded: string)
    ensures padded == Spell(Zeros(LeadingZeros(bytes))) + s
  {
    padded := s;
    var k := 0;
    assert bytes[0..] == bytes;
    while k < |bytes| && bytes[k] == 0
      invariant k <= |bytes| && LeadingZeros(bytes) == k + LeadingZeros(bytes[k..])
      invariant padded == Ones(k, s)
    {
      LeadingZerosFrom(bytes, k);
      OnesMore(k, s);
      padded := "1" + padded;
      k := k + 1;
    }
    if k < |bytes| {
      LeadingZerosFrom(bytes, k);
    }
  }

  method Base58Decode(str: string) returns (r: Result<seq<byte>>)
    ensures r == Decode(str)
  {
    var n := ReadNumber(str);
    if n.Err? {
      return Err(n.error);
    }
    var bytes := ToBytes(n.value);
    bytes := PadZeros(str, bytes);
    r := Ok(bytes);
  }

  method ReadNumber(str: string) returns (r: Result<nat>)
    ensures r == if OverAlphabet(str) then Ok(FromDigits(Read(str), 58)) else Err(InvalidChar(FirstBad(str)))
  {
    var n: nat := 0;
    for k := 0 to |str|
      invariant OverAlphabet(str[..k]) && n == FromDigits(Read(str[..k]), 58)
    {
      var v := DigitOf(str[k]);
      if v < 0 {
        FirstBadAt(str, k);
        return Err(InvalidChar(str[k]));
      }
      assert str[..k + 1] == str[..k] + [str[k]];
      ReadSnoc(str[..k], str[k]);
      assert (Read(str[..k]) + [v as nat])[..k] == Read(str[..k]);
      n := n * 58 + v;
    }
    assert str[..|str|] == str;
    r := Ok(n);
  }

  lemma DigitsLast(n: nat)
    requires n > 0
    ensures n / 256 < n && ToDigits(n, 256) == ToDigits(n / 256, 256) + [n % 256]
  {
    DivSmaller(n, 256);
  }

  method ToBytes(value: nat) returns (bytes: seq<byte>)
    ensures bytes == ToDigits(value, 256)
  {
    var n := value;
    bytes := [];
    while n > 0
      invariant n >= 0 && ToDigits(value, 256) == ToDigits(n, 256) + bytes
    {
      DigitsLast(n);
      bytes := [n % 256] + bytes;
      n := n / 256;
    }
  }

  method PadZeros(str: string, bytes: seq<byte>) returns (padded: seq<byte>)
    requires OverAlphabet(str)
    ensures padded == Zeros(LeadingZeros(Read(str))) + bytes
  {
    padded := bytes;
    var k := 0;
    StartOfZeros(str, bytes);
    while k < |str| && str[k] == '1'
      invariant k <= |str| && LeadingZeros(Read(str)) == k + LeadingZeros(Read(str)[k..])
      invariant padded == Padded(k, bytes)
    {
      OneMoreZero(str, k);
      PaddedMore(k, bytes);
      padded := [0] + padded;
      k := k + 1;
    }
    if k < |str| {
      OneMoreZero(str, k);
    }
  }

  ghost function Padded(k: nat, bytes: seq<byte>): (padded: seq<nat>) {
    Zeros(k) + bytes
  }

  lemma PaddedMore(k: nat, bytes: seq<byte>)
    ensures [0] + Padded(k, bytes) == Padded(k + 1, bytes)
  {
    assert Zeros(k + 1) == [0] + Zeros(k);
  }

  lemma StartOfZeros(s: string, bytes: seq<byte>)
    requires OverAlphabet(s)
    ensures Read(s)[0..] == Read(s) && Padded(0, bytes) == bytes
  {}

  lemma OneMoreZero(s: string, k: nat)
    requires OverAlphabet(s) && k < |s|
    ensures LeadingZeros(Read(s)[k..]) == if s[k] == '1' then 1 + LeadingZeros(Read(s)[k + 1..]) else 0
  {
    OneIsZero(s, k);
    LeadingZerosFrom(Read(s), k);
  }

  // The digit 1, and only it, stands for zero.
  lemma {:induction false} OneIsZero(s: string, k: nat)
    requires OverAlphabet(s) && k < |s|
    ensures Read(s)[k] == 0 <==> s[k] == '1'
  {
    if k > 0 {
      OneIsZero(s[1..], k - 1);
    }
  }

  lemma {:induction false} FirstBadAt(s: string, k: nat)
    requires k < |s| && OverAlphabet(s[..k]) && DigitOf(s[k]) == -1
    ensures !OverAlphabet(s) && FirstBad(s) == s[k]
  {
    if k > 0 {
      assert s[..k][1..] == s[1..][..k - 1];
      FirstBadAt(s[1..], k - 1);
    }
  }

  lemma {:induction false} OverAlphabetAll(s: string)
    ensures OverAlphabet(s) <==> forall c :: c in s ==> c in ALPHABET
  {
    if s != "" {
      AlphabetSearch(s[0]);
      OverAlphabetAll(s[1..]);
      assert s == [s[0]] + s[1..];
    }
  }

  // ---- Base58 is a bijection ----

  lemma DecodeEncode(bytes: seq<byte>)
    ensures Decode(Encode(bytes)) == Ok(bytes)
  {
    RebaseInverts(bytes, 256, 58);
    ReadSpell(Rebase(bytes, 256, 58));
  }

  lemma EncodeDecode(s: string)
    ensures Decode(s).Ok? <==> OverAlphabet(s)
    ensures Decode(s).Ok? ==> Encode(Decode(s).value) == s
  {
    if OverAlphabet(s) {
      RebaseInverts(Read(s), 58, 256);
      SpellRead(s);
    }
  }

  // The text spells the number of the bytes, in base 58, and has as many leading ones
  // as there are leading zeros.
  lemma SameNumber(bytes: seq<byte>)
    ensures OverAlphabet(Encode(bytes))
    ensures FromDigits(Read(Encode(bytes)), 58) == FromDigits(bytes, 256)
    ensures LeadingZeros(Read(Encode(bytes))) == LeadingZeros(bytes)
  {
    var k, n := LeadingZeros(bytes), FromDigits(bytes, 256);
    ReadSpell(Rebase(bytes, 256, 58));
    ValueOfPadded(k, ToDigits(n, 58), 58);
    FromTo(n, 58);
    LeadingZerosOf(k, ToDigits(n, 58));
  }

  lemma RebaseIs(k: nat, ds: seq<nat>, es: seq<nat>)
    requires Digits(es, 58) && (ds != [] ==> ds[0] != 0) && (es != [] ==> es[0] != 0)
    requires FromDigits(ds, 256) == FromDigits(es, 58)
    ensures Rebase(Zeros(k) + ds, 256, 58) == Zeros(k) + es
  {
    LeadingZerosOf(k, ds);
    ValueOfPadded(k, ds, 256);
    ToFrom(es, 58);
  }

  lemma FewDigits(d: nat, e: nat, base: nat)
    ensures FromDigits([d], base) == d && FromDigits([d, e], base) == d * base + e
  {
    assert [d][..0] == [];
    FromSnoc([d], e, base);
    assert [d] + [e] == [d, e];
  }

  lemma SpellOne(d: nat)
    requires d < 58
    ensures Digits([d], 58) && Spell([d]) == [Char(d)]
  {
    assert [d][1..] == [];
  }

  // 256 is 4 * 58 + 24, whose digits are 5 and R; leading zeros are ones.
  lemma TwoBytes()
    ensures Encode([1, 0]) == "5R" && Decode("5R") == Ok([1, 0])
  {
    FewDigits(1, 0, 256);
    FewDigits(4, 24, 58);
    RebaseIs(0, [1, 0], [4, 24]);
    assert Zeros(0) + [1, 0] == [1, 0] && Zeros(0) + [4, 24] == [4, 24];
    SpellOne(24);
    SpellHead(4, [24]);
    assert [4] + [24] == [4, 24];
    DecodeEncode([1, 0]);
  }

  lemma ZeroThenLast()
    ensures Encode([0, 57]) == "1z" && Decode("1z") == Ok([0, 57])
  {
    FewDigits(57, 0, 256);
    FewDigits(57, 0, 58);
    RebaseIs(1, [57], [57]);
    assert Zeros(0) == [] && Zeros(1) == [0] + Zeros(0);
    assert Zeros(1) + [57] == [0, 57];
    SpellOne(57);
    SpellHead(0, [57]);
    assert [0] + [57] == [0, 57];
    DecodeEncode([0, 57]);
  }

  // ---- Base58Check and P2PKH ----

  type Hash = f: seq<byte> -> seq<byte> | forall x :: |f(x)| == 32 witness x => seq(32, _ => 0)

  function Checksum(sha256: Hash, payload: seq<byte>): (c: seq<byte>)
    ensures |c| == 4
  {
    sha256(sha256(payload))[..4]
  }

  // The payload, then four bytes of its double hash.
  lemma CheckedBytes(sha256: Hash, payload: seq<byte>)
    ensures Decode(CheckEncode(sha256, payload)) == Ok(payload + sha256(sha256(payload))[..4])
  {
    DecodeEncode(payload + Checksum(sha256, payload));
  }

  function CheckEncode(sha256: Hash, payload: seq<byte>): string {
    Encode(payload + Checksum(sha256, payload))
  }

  ghost function CheckDecode(sha256: Hash, s: string): Result<seq<byte>> {
    match Decode(s)
    case Err(e) => Err(e)
    case Ok(full) => CheckBytes(sha256, full)
  }

  ghost function HashOfAddress(sha256: Hash, address: string): Result<seq<byte>> {
    match CheckDecode(sha256, address)
    case Err(e) => Err(e)
    case Ok(payload) =>
      if |payload| != 21 then Err(NotP2PKH)
      else if payload[0] != 0 then Err(WrongVersion)
      else Ok(payload[1..])
  }

  function AddressOfHash(sha256: Hash, pkh: seq<byte>): Result<string> {
    if |pkh| != 20 then Err(WrongLength) else Ok(CheckEncode(sha256, [0] + pkh))
  }

  // At least five bytes, of which the last four are those of the double hash of the rest.
  ghost predicate HasSum(sha256: Hash, full: seq<byte>) {
    |full| >= 5 && full[|full| - 4..] == sha256(sha256(full[..|full| - 4]))[..4]
  }

  ghost predicate Summed25(sha256: Hash, address: string) {
    Decode(address).Ok? && |Decode(address).value| == 25 && HasSum(sha256, Decode(address).value)
  }

  // Twenty-five bytes: the version 0, a hash, and the sum.
  ghost predicate IsAddress(sha256: Hash, address: string) {
    Summed25(sha256, address) && Decode(address).value[0] == 0
  }

  // full.set(bytes, at)
  method SetAt(full: array<byte>, bytes: seq<byte>, at: nat)
    requires at + |bytes| <= full.Length
    modifies full
    ensures full[..] == old(full[..at]) + bytes + old(full[at + |bytes|..])
  {
    for i := 0 to |bytes|
      invariant full[..] == old(full[..at]) + bytes[..i] + old(full[at + i..])
    {
      full[at + i] := bytes[i];
    }
    assert bytes[..|bytes|] == bytes;
  }

  method SetBoth(full: array<byte>, payload: seq<byte>, checksum: seq<byte>)
    requires full.Length == |payload| + |checksum|
    modifies full
    ensures full[..] == payload + checksum
  {
    SetAt(full, payload, 0);
    assert full[..|payload|] == payload;
    SetAt(full, checksum, |payload|);
  }

  method Base58CheckEncode(sha256: Hash, payload: seq<byte>) returns (s: string)
    ensures s == CheckEncode(sha256, payload)
    ensures Decode(s) == Ok(payload + sha256(sha256(payload))[..4])
  {
    var checksum := Checksum(sha256, payload);
    var full := new byte[|payload| + 4](_ => 0);
    SetBoth(full, payload, checksum);
    s := Base58Encode(full[..]);
    CheckedBytes(sha256, payload);
  }

  method EncodeP2PKH(sha256: Hash, pkh20: seq<byte>) returns (r: Result<string>)
    ensures r == AddressOfHash(sha256, pkh20)
    ensures r.Ok? <==> |pkh20| == 20
    ensures r.Ok? ==> Decode(r.value) == Ok([0] + pkh20 + sha256(sha256([0] + pkh20))[..4])
  {
    if |pkh20| != 20 {
      return Err(WrongLength);
    }
    var payload := new byte[21](_ => 0);
    payload[0] := 0;
    SetAt(payload, pkh20, 1);
    assert payload[..] == [0] + pkh20;
    var address := Base58CheckEncode(sha256, payload[..]);
    r := Ok(address);
  }

  method DecodeP2PKH(sha256: Hash, address: string) returns (r: Result<seq<byte>>)
    ensures r == HashOfAddress(sha256, address)
    ensures r.Ok? <==> IsAddress(sha256, address)
    ensures r.Ok? ==> r.value == Decode(address).value[1..21]
    ensures r == Err(NotP2PKH)
      <==> Decode(address).Ok? && HasSum(sha256, Decode(address).value) && |Decode(address).value| != 25
    ensures r == Err(WrongVersion) <==> Summed25(sha256, address) && Decode(address).value[0] != 0
  {
    var decoded := Base58CheckDecode(sha256, address);
    if decoded.Err? {
      return Err(decoded.error);
    }
    var payload := decoded.value;
    if |payload| != 21 {
      return Err(NotP2PKH);
    }
    if payload[0] != 0 {
      return Err(WrongVersion);
    }
    r := Ok(payload[1..]);
  }

  method Base58CheckDecode(sha256: Hash, str: string) returns (r: Result<seq<byte>>)
    ensures r == CheckDecode(sha256, str)
    ensures r.Ok? <==> Decode(str).Ok? && HasSum(sha256, Decode(str).value)
    ensures r.Ok? ==> Decode(str).value == r.value + sha256(sha256(r.value))[..4] && r.value != []
    ensures r == Err(TooShort) <==> Decode(str).Ok? && |Decode(str).value| < 5
    ensures r == Err(ChecksumMismatch)
      <==> Decode(str).Ok? && |Decode(str).value| >= 5 && !HasSum(sha256, Decode(str).value)
  {
    var decoded := Base58Decode(str);
    if decoded.Err? {
      return Err(decoded.error);
    }
    r := CheckSum(sha256, decoded.value);
    BytesChecked(sha256, decoded.value);
  }

  method CheckSum(sha256: Hash, full: seq<byte>) returns (r: Result<seq<byte>>)
    ensures r == CheckBytes(sha256, full)
  {
    if |full| < 5 {
      return Err(TooShort);
    }
    var payload, givenSum := full[..|full| - 4], full[|full| - 4..];
    var same := SameFour(givenSum, Checksum(sha256, payload));
    r := if same then Ok(payload) else Err(ChecksumMismatch);
  }

  lemma BytesChecked(sha256: Hash, full: seq<byte>)
    ensures
      var r := CheckBytes(sha256, full);
      && (r.Ok? <==> HasSum(sha256, full))
      && (r.Ok? ==> full == r.value + sha256(sha256(r.value))[..4] && r.value != [])
      && (r == Err(TooShort) <==> |full| < 5)
      && (r == Err(ChecksumMismatch) <==> |full| >= 5 && !HasSum(sha256, full))
  {
    if |full| >= 5 {
      assert full == full[..|full| - 4] + full[|full| - 4..];
    }
  }

  method SameFour(a: seq<byte>, b: seq<byte>) returns (same: bool)
    requires |a| == |b| == 4
    ensures same <==> a == b
  {
    for i := 0 to 4
      invariant forall j :: 0 <= j < i ==> a[j] == b[j]
    {
      if a[i] != b[i] {
        return false;
      }
    }
    same := true;
  }

  // What the checks make of the bytes of a decoded string.
  ghost function CheckBytes(sha256: Hash, full: seq<byte>): Result<seq<byte>> {
    if |full| < 5 then Err(TooShort)
    else
      var payload := full[..|full| - 4];
      if full[|full| - 4..] != Checksum(sha256, payload) then Err(ChecksumMismatch) else Ok(payload)
  }

  lemma CheckBytesIsInverse(sha256: Hash, full: seq<byte>, p: seq<byte>)
    ensures CheckBytes(sha256, full) == Ok(p) <==> p != [] && full == p + Checksum(sha256, p)
  {
    if CheckBytes(sha256, full) == Ok(p) {
      assert full == full[..|full| - 4] + full[|full| - 4..];
    }
  }

  // A checked string decodes to p exactly when it is the checked encoding of p,
  // except that the encoding of the empty payload is refused as too short.
  lemma CheckDecodeIsInverse(sha256: Hash, s: string, p: seq<byte>)
    ensures CheckDecode(sha256, s) == Ok(p) <==> p != [] && s == CheckEncode(sha256, p)
  {
    var full := p + Checksum(sha256, p);
    DecodeEncode(full);
    EncodeDecode(s);
    if Decode(s).Ok? {
      CheckBytesIsInverse(sha256, Decode(s).value, p);
      assert Decode(s).value == full <==> s == Encode(full);
    }
  }

  lemma EmptyPayloadRefused(sha256: Hash)
    ensures CheckDecode(sha256, CheckEncode(sha256, [])) == Err(TooShort)
  {
    DecodeEncode([] + Checksum(sha256, []));
  }

  // The accepted mainnet addresses are exactly the encodings of 20-byte hashes.
  lemma P2PKHRoundTrip(sha256: Hash, address: string, pkh: seq<byte>)
    ensures HashOfAddress(sha256, address) == Ok(pkh) <==> AddressOfHash(sha256, pkh) == Ok(address)
  {
    CheckDecodeIsInverse(sha256, address, [0] + pkh);
    if HashOfAddress(sha256, address) == Ok(pkh) {
      var payload := CheckDecode(sha256, address).value;
      assert payload == [payload[0]] + payload[1..];
    }
  }

  // Every address starts with the digit 1.
  lemma StartsWithOne(sha256: Hash, address: string)
    requires IsAddress(sha256, address)
    ensures address != "" && address[0] == '1'
  {
    var full := Decode(address).value;
    EncodeDecode(address);
    assert LeadingZeros(full) == 1 + LeadingZeros(full[1..]);
    assert Rebase(full, 256, 58)[0] == Zeros(LeadingZeros(full))[0];
    assert Zeros(LeadingZeros(full))[0] in Zeros(LeadingZeros(full));
  }
}
