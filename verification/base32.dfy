/** Base32 (section 6 of RFC 4648): an encoder whose 32-bit accumulator is never masked, a decoder, the round trip. */
module Base32 {
  import opened Wrappers

  type Byte = n: nat | n < 256

  const ALPHABET := "ABCDEFGHIJKLMNOPQRSTUVWXYZ234567"
  const WORD := 0x1_0000_0000

  // ---------- numbers as digits ----------

  /** The number a sequence of digits spells, most significant first. */
  function Number(base: nat, digits: seq<nat>): nat {
    if digits == [] then 0 else Number(base, digits[..|digits| - 1]) * base + digits[|digits| - 1]
  }

  function Digits(base: nat, count: nat, number: nat): (digits: seq<nat>)
    requires base > 0
    ensures |digits| == count
  {
    if count == 0 then [] else Digits(base, count - 1, number / base) + [number % base]
  }

  predicate AreDigits(base: nat, digits: seq<nat>) {
    forall i | 0 <= i < |digits| :: digits[i] < base
  }

  lemma NumberAppend(base: nat, digits: seq<nat>, last: nat)
    ensures Number(base, digits + [last]) == Number(base, digits) * base + last
  {
    assert (digits + [last])[..|digits|] == digits;
  }

  lemma Scale(a: nat, b: nat, n: nat)
    requires a <= b
    ensures a * n <= b * n
  {
  }

  lemma DivideBack(q: nat, base: nat, r: nat)
    requires r < base
    ensures (q * base + r) / base == q && (q * base + r) % base == r
  {
    var n := q * base + r;
    var p := n / base;
    assert (p - q) * base == p * base - q * base;
    if p > q {
      Scale(1, p - q, base);
    }
    if q > p {
      Scale(1, q - p, base);
    }
  }

  lemma Divided(n: nat, d: nat)
    requires d > 0
    ensures n == n / d * d + n % d && n % d < d
  {
  }

  lemma QuotientBelow(n: nat, d: nat, bound: nat)
    requires d > 0 && n < bound * d
    ensures n / d < bound
  {
    Divided(n, d);
    if n / d >= bound {
      Scale(bound, n / d, d);
    }
  }

  lemma IsDivision(n: nat, q: nat, d: nat, r: nat)
    requires n == q * d + r && r < d
    ensures n / d == q && n % d == r
  {
    DivideBack(q, d, r);
  }

  lemma Within(s: nat, k: nat, r: nat, m: nat)
    requires s < k && r < m
    ensures s * m + r < m * k
  {
    Scale(s + 1, k, m);
    assert (s + 1) * m == s * m + m && m * k == k * m;
  }

  lemma Spread(p: nat, k: nat, s: nat, m: nat)
    ensures (p * k + s) * m == p * (m * k) + s * m
  {
    assert (p * k + s) * m == p * k * m + s * m;
    assert p * k * m == p * (k * m);
    assert k * m == m * k;
  }

  /** Two divisions, put together. */
  lemma Compose(n: nat, q: nat, m: nat, r: nat, p: nat, k: nat, s: nat)
    requires n == q * m + r && q == p * k + s
    ensures n == p * (m * k) + (s * m + r)
  {
    Spread(p, k, s, m);
  }

  /** And taken apart the other way. */
  lemma Recompose(n: nat, t: nat, w: nat, r: nat, a: nat, b: nat, x: nat, y: nat)
    requires w == a * b && n == t * w + r && r == x * b + y
    ensures n == (t * a + x) * b + y
  {
    Spread(t, a, x, b);
    assert b * a == w;
  }

  lemma DivideTwice(n: nat, m: nat, k: nat)
    requires m > 0 && k > 0
    ensures m * k > 0 && n / m / k == n / (m * k)
  {
    var q := n / m;
    Divided(n, m);
    Divided(q, k);
    Within(q % k, k, n % m, m);
    Compose(n, q, m, n % m, q / k, k, q % k);
    IsDivision(n, q / k, m * k, q % k * m + n % m);
  }

  /** A remainder by a multiple of `b` keeps the remainder by `b`, and its quotient by `b` loses only a multiple. */
  lemma RemainderTwice(n: nat, w: nat, a: nat, b: nat)
    requires w == a * b && w > 0 && b > 0
    ensures n % w % b == n % b && n / b == n / w * a + n % w / b
  {
    Divided(n, w);
    Divided(n % w, b);
    Recompose(n, n / w, w, n % w, a, b, n % w / b, n % w % b);
    IsDivision(n, n / w * a + n % w / b, b, n % w % b);
  }

  lemma DropMultiple(t: nat, w: nat, x: nat)
    requires w > 0
    ensures (t * w + x) % w == x % w
  {
    Divided(x, w);
    assert (t + x / w) * w == t * w + x / w * w;
    IsDivision(t * w + x, t + x / w, w, x % w);
  }

  /** As for a remainder, after dropping what lies below `m`. */
  lemma QuotientOfRemainder(n: nat, total: nat, m: nat, w: nat, a: nat, b: nat)
    requires total == w * m && w == a * b && total > 0 && m > 0 && b > 0
    ensures n % total / m % b == n / m % b
  {
    RemainderTwice(n, total, w, m);
    Multiples(n / total, w, a, b);
    DropMultiple(n / total * a, b, n % total / m);
  }

  lemma Multiples(t: nat, w: nat, a: nat, b: nat)
    requires w == a * b
    ensures t * w == t * a * b
  {
  }

  /** A number has one spelling of each length. */
  lemma {:induction false} DigitsOfNumber(base: nat, digits: seq<nat>)
    requires base > 0 && AreDigits(base, digits)
    ensures Digits(base, |digits|, Number(base, digits)) == digits
  {
    if digits != [] {
      var front, last := digits[..|digits| - 1], digits[|digits| - 1];
      DigitsOfNumber(base, front);
      DivideBack(Number(base, front), base, last);
      assert digits == front + [last];
    }
  }

  function Pow2(n: nat): (p: nat)
    ensures p > 0
  {
    if n == 0 then 1 else 2 * Pow2(n - 1)
  }

  lemma {:induction false} PowersMultiply(a: nat, b: nat)
    ensures Pow2(a + b) == Pow2(a) * Pow2(b)
  {
    if a > 0 {
      PowersMultiply(a - 1, b);
    }
  }

  lemma Powers()
    ensures Pow2(5) == 32 && Pow2(8) == 256 && Pow2(16) == 0x1_0000 && Pow2(32) == WORD
  {
    assert Pow2(4) == 16;
    PowersMultiply(4, 4);
    PowersMultiply(8, 8);
    PowersMultiply(16, 16);
  }

  lemma NotNegative(n: nat, d: nat)
    requires d > 0
    ensures n / d >= 0
  {
    Divided(n, d);
  }

  /** `>>>` of a 32-bit word. */
  function ShiftedRight(word: nat, bits: nat): nat {
    NotNegative(word, Pow2(bits));
    word / Pow2(bits)
  }

  /** `(word << bits) | low`, with `low` below the shifted bits; the word keeps its low 32 bits. */
  function ShiftedIn(word: nat, bits: nat, low: nat): nat {
    (word * Pow2(bits) + low) % WORD
  }

  /** `<<`, which keeps the low 32 bits. */
  function ShiftedLeft(word: nat, bits: nat): nat {
    word * Pow2(bits) % WORD
  }

  // ---------- the encoding as the standard describes it ----------

  /** Five-bit groups of the bits of `n` bytes, the last filled with zeroes. */
  function GroupCount(n: nat): nat {
    (8 * n + 4) / 5
  }

  function Groups(bytes: seq<Byte>): seq<nat> {
    var count := GroupCount(|bytes|);
    Digits(32, count, Number(256, bytes) * Pow2(5 * count - 8 * |bytes|))
  }

  function Spelt(groups: seq<nat>): (text: string)
    ensures |text| == |groups|
  {
    seq(|groups|, i requires 0 <= i < |groups| => if groups[i] < 32 then ALPHABET[groups[i]] else '?')
  }

  function Padding(n: nat): string {
    seq(n, _ => '=')
  }

  function Encoded(bytes: seq<Byte>): string {
    var text := Spelt(Groups(bytes));
    text + Padding((8 - |text| % 8) % 8)
  }

  /** Whole groups of eight characters, one for every five bytes begun. */
  lemma EncodedLength(bytes: seq<Byte>)
    ensures |Encoded(bytes)| == (|bytes| + 4) / 5 * 8
  {
    hide Number, Pow2, Digits;
    PaddedLength(|bytes|);
  }

  lemma PaddedLength(n: nat)
    ensures GroupCount(n) + (8 - GroupCount(n) % 8) % 8 == (n + 4) / 5 * 8
  {
    var k, r := n / 5, n % 5;
    assert n == 5 * k + r;
    GroupsOfFive(k, r);
    hide GroupCount;
    EightAnd(k, (8 * r + 4) / 5);
    PaddedGroup(r, (8 * r + 4) / 5);
    FivesBegun(k, r);
  }

  lemma PaddedGroup(r: nat, j: nat)
    requires r < 5 && j == (8 * r + 4) / 5
    ensures j + (8 - j) % 8 == (r + 4) / 5 * 8
  {
    assert r == 0 || r == 1 || r == 2 || r == 3 || r == 4;
  }

  lemma GroupsOfFive(k: nat, r: nat)
    requires r < 5
    ensures GroupCount(5 * k + r) == 8 * k + (8 * r + 4) / 5 && (8 * r + 4) / 5 < 8
  {
  }

  lemma EightAnd(k: nat, j: nat)
    requires j < 8
    ensures (8 * k + j) % 8 == j
  {
  }

  lemma FivesBegun(k: nat, r: nat)
    requires r < 5
    ensures (5 * k + r + 4) / 5 == k + (r + 4) / 5
  {
  }

  // ---------- the encoder ----------

  /** The accumulator holds the number read so far modulo its width; the digits written are what lies above the pending
      bits. */
  ghost predicate Encodes(bytes: seq<Byte>, buffer: nat, bits: nat, digits: seq<nat>) {
    && buffer == Number(256, bytes) % WORD
    && 8 * |bytes| == 5 * |digits| + bits
    && AreDigits(32, digits) && Number(32, digits) == Number(256, bytes) / Pow2(bits)
  }

  lemma ShiftIn(bytes: seq<Byte>, byte: Byte, buffer: nat, bits: nat, digits: seq<nat>)
    requires Encodes(bytes, buffer, bits, digits)
    ensures Encodes(bytes + [byte], ShiftedIn(buffer, 8, byte), bits + 8, digits)
  {
    hide Pow2, Number;
    NumberAppend(256, bytes, byte);
    Powers();
    Below(Number(256, bytes), 256, byte, bits, 8);
    ShiftRemainder(Number(256, bytes), 256, byte);
  }

  lemma ShiftRemainder(n: nat, base: nat, digit: nat)
    ensures (n % WORD * base + digit) % WORD == (n * base + digit) % WORD
  {
    var t, s := n / WORD, n % WORD;
    Divided(n, WORD);
    Spread(t, WORD, s, base);
    assert t * (base * WORD) == t * base * WORD;
    DropMultiple(t * base, WORD, s * base + digit);
  }

  /** Digits appended below the pending bits leave what lies above them. */
  lemma Below(n: nat, base: nat, digit: nat, bits: nat, width: nat)
    requires base == Pow2(width) && digit < base
    ensures n / Pow2(bits) == (n * base + digit) / Pow2(bits + width)
  {
    PowersMultiply(width, bits);
    IsDivision(n * base + digit, n, base, digit);
    DivideTwice(n * base + digit, base, Pow2(bits));
  }

  /** The digit just above `bits`, read off a number or off its remainder by a large enough power. */
  lemma TakeDigit(n: nat, bits: nat, width: nat, total: nat)
    requires bits + width <= total
    ensures n % Pow2(total) / Pow2(bits) % Pow2(width) == n / Pow2(bits) % Pow2(width)
    ensures n / Pow2(bits + width) * Pow2(width) + n / Pow2(bits) % Pow2(width) == n / Pow2(bits)
  {
    hide Pow2;
    var rest := total - bits - width;
    PowersMultiply(bits, width);
    PowersMultiply(rest, width);
    PowersMultiply(rest + width, bits);
    QuotientOfRemainder(n, Pow2(total), Pow2(bits), Pow2(rest + width), Pow2(rest), Pow2(width));
    DivideTwice(n, Pow2(bits), Pow2(width));
    Divided(n / Pow2(bits), Pow2(width));
  }

  lemma ShiftOut(bytes: seq<Byte>, buffer: nat, bits: nat, digits: seq<nat>)
    requires Encodes(bytes, buffer, bits, digits) && 5 <= bits <= 32
    ensures var digit := ShiftedRight(buffer, bits - 5) % 32; Encodes(bytes, buffer, bits - 5, digits + [digit])
  {
    hide Pow2, Number;
    var digit := ShiftedRight(buffer, bits - 5) % 32;
    NumberAppend(32, digits, digit);
    Powers();
    TakeDigit(Number(256, bytes), bits - 5, 5, 32);
  }

  lemma LastGroup(bytes: seq<Byte>, buffer: nat, bits: nat, digits: seq<nat>)
    requires Encodes(bytes, buffer, bits, digits) && bits < 5
    ensures bits > 0 ==> digits + [ShiftedLeft(buffer, 5 - bits) % 32] == Groups(bytes)
    ensures bits == 0 ==> digits == Groups(bytes)
  {
    hide Number, Digits;
    if bits > 0 {
      var digit := ShiftedLeft(buffer, 5 - bits) % 32;
      NumberAppend(32, digits, digit);
      FillGroup(Number(256, bytes), bits);
      DigitsOfNumber(32, digits + [digit]);
    } else {
      DigitsOfNumber(32, digits);
    }
  }

  lemma FillGroup(n: nat, bits: nat)
    requires 0 < bits < 5
    ensures var digit := n % WORD * Pow2(5 - bits) % WORD % 32;
            n / Pow2(bits) * 32 + digit == n * Pow2(5 - bits) && digit < 32
  {
    hide Pow2;
    Powers();
    PowersMultiply(bits, 5 - bits);
    SameRemainder(n, Pow2(5 - bits));
    FillDigit(n, Pow2(bits), Pow2(5 - bits));
  }

  lemma FillDigit(n: nat, m: nat, c: nat)
    requires m > 0 && m * c == 32
    ensures n / m * 32 + n * c % 32 == n * c
  {
    var q, r := n / m, n % m;
    Divided(n, m);
    Compose32(n, q, m, r, c);
    StrictScale(r, m, c);
    IsDivision(n * c, q, 32, r * c);
  }

  lemma Compose32(n: nat, q: nat, m: nat, r: nat, c: nat)
    requires m * c == 32 && n == q * m + r
    ensures n * c == q * 32 + r * c
  {
    Spread(q, m, r, c);
    assert c * m == 32;
  }

  lemma SameRemainder(n: nat, c: nat)
    ensures n % WORD * c % WORD % 32 == n * c % 32
  {
    var w := 0x800_0000;
    var t, s := n / WORD, n % WORD;
    RemainderTwice(s * c, WORD, w, 32);
    Divided(n, WORD);
    Spread(t, WORD, s, c);
    assert t * (c * WORD) == t * c * w * 32 by { Regroup(t, c, w); }
    DropMultiple(t * c * w, 32, s * c);
  }

  lemma Regroup(t: nat, c: nat, w: nat)
    requires w == 0x800_0000
    ensures t * (c * WORD) == t * c * w * 32
  {
    assert t * (c * WORD) == t * c * WORD;
  }

  method Encode(bytes: seq<Byte>) returns (output: string)
    ensures output == Encoded(bytes)
  {
    hide Encodes, Pow2, Groups, ShiftedRight, ShiftedLeft, ShiftedIn, Spelt;
    output := "";
    var buffer: nat, bits: nat := 0, 0;
    ghost var digits: seq<nat> := [];
    Started();
    for i := 0 to |bytes|
      invariant 0 <= bits < 5 && Encodes(bytes[..i], buffer, bits, digits) && output == Spelt(digits)
    {
      ShiftIn(bytes[..i], bytes[i], buffer, bits, digits);
      assert bytes[..i + 1] == bytes[..i] + [bytes[i]];
      buffer := ShiftedIn(buffer, 8, bytes[i]);
      bits := bits + 8;
      while bits >= 5
        invariant 0 <= bits <= 12 && Encodes(bytes[..i + 1], buffer, bits, digits) && output == Spelt(digits)
      {
        ShiftOut(bytes[..i + 1], buffer, bits, digits);
        bits := bits - 5;
        var digit := ShiftedRight(buffer, bits) % 32;
        SpeltAppend(digits, digit);
        digits := digits + [digit];
        output := output + [ALPHABET[digit]];
      }
    }
    assert bytes[..|bytes|] == bytes;
    LastGroup(bytes, buffer, bits, digits);
    if bits > 0 {
      var digit := ShiftedLeft(buffer, 5 - bits) % 32;
      SpeltAppend(digits, digit);
      digits := digits + [digit];
      output := output + [ALPHABET[digit]];
    }
    var remainder := |output| % 8;
    PaddedText(output);
    output := if remainder == 0 then output else output + Padding(8 - remainder);
  }

  lemma SpeltAppend(digits: seq<nat>, digit: nat)
    requires digit < 32
    ensures Spelt(digits + [digit]) == Spelt(digits) + [ALPHABET[digit]]
  {
  }

  lemma PaddedText(text: string)
    ensures (if |text| % 8 == 0 then text else text + Padding(8 - |text| % 8)) == text + Padding((8 - |text| % 8) % 8)
  {
    assert Padding(0) == "" && text + "" == text;
  }

  lemma Started()
    ensures Encodes([], 0, 0, []) && Spelt([]) == ""
  {
  }

  // ---------- the decoder ----------

  function Upper(c: char): char {
    if 'a' <= c <= 'z' then ((c as int) - 32) as char else c
  }

  function UpperAll(text: string): (upper: string)
    ensures |upper| == |text|
  {
    seq(|text|, i requires 0 <= i < |text| => Upper(text[i]))
  }

  /** Without the `=` it ends with. */
  function Stripped(text: string): string {
    if text == "" || text[|text| - 1] != '=' then text else Stripped(text[..|text| - 1])
  }

  /** `indexOf`, with no position standing for -1. */
  function IndexOf(text: string, c: char): (at: Option<nat>)
    ensures at.Some? ==> at.value < |text| && text[at.value] == c
  {
    if text == "" then None
    else if text[0] == c then Some(0)
    else
      var later := IndexOf(text[1..], c);
      if later.Some? then Some(later.value + 1) else None
  }

  predicate IsSpelling(text: string) {
    forall i | 0 <= i < |text| :: IndexOf(ALPHABET, text[i]).Some?
  }

  function ValuesOf(text: string): (values: seq<nat>)
    requires IsSpelling(text)
    ensures |values| == |text|
  {
    seq(|text|, i requires 0 <= i < |text| => IndexOf(ALPHABET, text[i]).value)
  }

  function Unpacked(values: seq<nat>): seq<nat> {
    Digits(256, 5 * |values| / 8, ShiftedRight(Number(32, values), 5 * |values| % 8))
  }

  function Decoded(text: string): Option<seq<nat>> {
    var cleaned := Stripped(UpperAll(text));
    if IsSpelling(cleaned) then Some(Unpacked(ValuesOf(cleaned))) else None
  }

  ghost predicate Decodes(values: seq<nat>, buffer: nat, bits: nat, bytes: seq<nat>) {
    && buffer == Number(32, values) % 0x1_0000
    && 5 * |values| == 8 * |bytes| + bits
    && AreDigits(256, bytes) && Number(256, bytes) == Number(32, values) / Pow2(bits)
  }

  lemma ReadValue(values: seq<nat>, value: nat, buffer: nat, bits: nat, bytes: seq<nat>)
    requires Decodes(values, buffer, bits, bytes) && value < 32
    ensures Decodes(values + [value], ShiftedIn(buffer, 5, value) % 0x1_0000, bits + 5, bytes)
  {
    hide Pow2, Number;
    NumberAppend(32, values, value);
    Powers();
    Below(Number(32, values), 32, value, bits, 5);
    ReadRemainder(Number(32, values), value);
  }

  lemma ReadRemainder(n: nat, value: nat)
    requires value < 32
    ensures (n % 0x1_0000 * 32 + value) % WORD % 0x1_0000 == (n * 32 + value) % 0x1_0000
  {
    var t, s := n / 0x1_0000, n % 0x1_0000;
    DropMultiple(32 * t, 0x1_0000, s * 32 + value);
  }

  lemma WriteByte(values: seq<nat>, buffer: nat, bits: nat, bytes: seq<nat>)
    requires Decodes(values, buffer, bits, bytes) && 8 <= bits <= 16
    ensures var byte := ShiftedRight(buffer, bits - 8) % 256; Decodes(values, buffer, bits - 8, bytes + [byte])
  {
    hide Pow2, Number;
    var byte := ShiftedRight(buffer, bits - 8) % 256;
    NumberAppend(256, bytes, byte);
    Powers();
    TakeDigit(Number(32, values), bits - 8, 8, 16);
  }

  lemma AllRead(values: seq<nat>, buffer: nat, bits: nat, bytes: seq<nat>)
    requires Decodes(values, buffer, bits, bytes) && bits < 8
    ensures bytes == Unpacked(values)
  {
    DigitsOfNumber(256, bytes);
  }

  method Decode(text: string) returns (decoded: Option<seq<nat>>)
    ensures decoded == Decoded(text)
  {
    hide Decodes, Pow2, Unpacked, IndexOf, ShiftedRight, ShiftedIn;
    var cleaned := Stripped(UpperAll(text));
    var bytes: seq<nat> := [];
    var buffer: nat, bits: nat := 0, 0;
    ghost var values: seq<nat> := [];
    NothingRead();
    for i := 0 to |cleaned|
      invariant 0 <= bits < 8 && |values| == i && Decodes(values, buffer, bits, bytes)
      invariant forall j | 0 <= j < i :: IndexOf(ALPHABET, cleaned[j]) == Some(values[j])
    {
      var value := IndexOf(ALPHABET, cleaned[i]);
      if value.None? {
        return None;
      }
      ReadValue(values, value.value, buffer, bits, bytes);
      buffer := ShiftedIn(buffer, 5, value.value) % 0x1_0000;
      values := values + [value.value];
      bits := bits + 5;
      if !(bits >= 8) {
        continue;
      }
      WriteByte(values, buffer, bits, bytes);
      bits := bits - 8;
      bytes := bytes + [ShiftedRight(buffer, bits) % 256];
    }
    assert values == ValuesOf(cleaned);
    AllRead(values, buffer, bits, bytes);
    return Some(bytes);
  }

  lemma NothingRead()
    ensures Decodes([], 0, 0, [])
  {
  }

  // ---------- the round trip ----------

  /** The alphabet lists 32 different characters, none lower-case and none `=`. */
  lemma SymbolOf(v: nat)
    requires v < 32
    ensures ALPHABET[v] as int == if v < 26 then 65 + v else 50 + (v - 26)
  {
  }

  lemma {:induction false} FoundAt(text: string, at: nat)
    requires at < |text| && forall i | 0 <= i < at :: text[i] != text[at]
    ensures IndexOf(text, text[at]) == Some(at)
  {
    if at > 0 {
      FoundAt(text[1..], at - 1);
    }
  }

  lemma SymbolFound(v: nat)
    requires v < 32
    ensures IndexOf(ALPHABET, ALPHABET[v]) == Some(v) && Upper(ALPHABET[v]) == ALPHABET[v] != '='
  {
    SymbolOf(v);
    forall i | 0 <= i < v
      ensures ALPHABET[i] != ALPHABET[v]
    {
      SymbolOf(i);
    }
    FoundAt(ALPHABET, v);
  }

  lemma {:induction false} StripPadding(text: string, n: nat)
    requires text == "" || text[|text| - 1] != '='
    ensures Stripped(text + Padding(n)) == text
  {
    var all := text + Padding(n);
    if n > 0 {
      assert all[..|all| - 1] == text + Padding(n - 1);
      StripPadding(text, n - 1);
    } else {
      assert all == text;
    }
  }

  lemma {:induction false} DigitsAreDigits(base: nat, count: nat, number: nat)
    requires base > 0
    ensures AreDigits(base, Digits(base, count, number))
  {
    if count > 0 {
      DigitsAreDigits(base, count - 1, number / base);
    }
  }

  lemma {:induction false} NumberOfDigits(base: nat, count: nat, number: nat, bound: nat)
    requires base > 0 && bound == Power(base, count) && number < bound
    ensures Number(base, Digits(base, count, number)) == number
  {
    if count > 0 {
      var rest, quotient, remainder := Power(base, count - 1), number / base, number % base;
      QuotientBelow(number, base, rest);
      NumberOfDigits(base, count - 1, quotient, rest);
      hide Number, Power;
      Divided(number, base);
      NumberAppend(base, Digits(base, count - 1, quotient), remainder);
    }
  }

  function Power(base: nat, n: nat): nat {
    if n == 0 then 1 else Power(base, n - 1) * base
  }

  lemma {:induction false} NumberIsBelow(base: nat, digits: seq<nat>)
    requires AreDigits(base, digits)
    ensures Number(base, digits) < Power(base, |digits|)
  {
    if digits != [] {
      var front := digits[..|digits| - 1];
      NumberIsBelow(base, front);
      OneMoreDigit(Number(base, front), Power(base, |front|), base, digits[|digits| - 1]);
    }
  }

  lemma OneMoreDigit(a: nat, b: nat, base: nat, digit: nat)
    requires a < b && digit < base
    ensures a * base + digit < b * base
  {
    Scale(a + 1, b, base);
    assert (a + 1) * base == a * base + base;
  }

  lemma {:induction false} PowerIsPow2(width: nat, n: nat)
    ensures Power(Pow2(width), n) == Pow2(width * n)
  {
    if n > 0 {
      PowerIsPow2(width, n - 1);
      PowersMultiply(width * (n - 1), width);
      assert width * (n - 1) + width == width * n;
    }
  }

  /** The groups of an encoding spell the bytes and the zeroes that fill the last group. */
  lemma GroupsNumber(bytes: seq<Byte>)
    ensures var fill := 5 * GroupCount(|bytes|) - 8 * |bytes|;
            Number(32, Groups(bytes)) == Number(256, bytes) * Pow2(fill)
  {
    hide Number, Digits, Pow2, Power;
    var n := |bytes|;
    var count := GroupCount(n);
    var fill := 5 * count - 8 * n;
    Powers();
    NumberIsBelow(256, bytes);
    PowerIsPow2(8, n);
    PowerIsPow2(5, count);
    PowersMultiply(8 * n, fill);
    StrictScale(Number(256, bytes), Pow2(8 * n), Pow2(fill));
    NumberOfDigits(32, count, Number(256, bytes) * Pow2(fill), Power(32, count));
  }

  lemma StrictScale(a: nat, b: nat, n: nat)
    requires a < b && n > 0
    ensures a * n < b * n
  {
    Scale(a + 1, b, n);
    assert (a + 1) * n == a * n + n;
  }

  lemma CleanedText(bytes: seq<Byte>)
    ensures Stripped(UpperAll(Encoded(bytes))) == Spelt(Groups(bytes))
    ensures IsSpelling(Spelt(Groups(bytes))) && ValuesOf(Spelt(Groups(bytes))) == Groups(bytes)
  {
    hide IndexOf, Number, Pow2;
    var groups := Groups(bytes);
    var text := Spelt(groups);
    DigitsAreDigits(32, |groups|, Number(256, bytes) * Pow2(5 * GroupCount(|bytes|) - 8 * |bytes|));
    forall i | 0 <= i < |text|
      ensures IndexOf(ALPHABET, text[i]) == Some(groups[i]) && Upper(text[i]) == text[i] != '='
    {
      SymbolFound(groups[i]);
    }
    assert UpperAll(Encoded(bytes)) == Encoded(bytes);
    StripPadding(text, (8 - |text| % 8) % 8);
  }

  /** Decoding an encoding gives the bytes back, for every byte string. */
  lemma RoundTrip(bytes: seq<Byte>)
    ensures Decoded(Encoded(bytes)) == Some(bytes)
  {
    hide Number, Digits, Pow2, Stripped, UpperAll, Encoded, Spelt, Groups, IsSpelling;
    var n := |bytes|;
    var fill := 5 * GroupCount(n) - 8 * n;
    CleanedText(bytes);
    GroupsNumber(bytes);
    DivideBack(Number(256, bytes), Pow2(fill), 0);
    DigitsOfNumber(256, bytes);
    assert |Groups(bytes)| == GroupCount(n) by { GroupsCount(bytes); }
  }

  lemma GroupsCount(bytes: seq<Byte>)
    ensures |Groups(bytes)| == GroupCount(|bytes|)
  {
  }

  // ---------- what decodes ----------

  predicate IsLetter(c: char) {
    'A' <= c <= 'Z' || 'a' <= c <= 'z' || '2' <= c <= '7'
  }

  lemma {:induction false} FoundWhere(text: string, c: char)
    ensures IndexOf(text, c).Some? <==> c in text
  {
    if text != "" && text[0] != c {
      FoundWhere(text[1..], c);
      assert c in text <==> c == text[0] || c in text[1..];
    }
  }

  lemma LettersAre(c: char)
    ensures IndexOf(ALPHABET, Upper(c)).Some? <==> IsLetter(c)
    ensures Upper(c) == '=' <==> c == '='
  {
    FoundWhere(ALPHABET, Upper(c));
    hide IndexOf;
    if IsLetter(c) {
      SymbolOf(if Upper(c) >= 'A' then Upper(c) as int - 65 else Upper(c) as int - 50 + 26);
    }
    if Upper(c) in ALPHABET {
      var v :| 0 <= v < |ALPHABET| && ALPHABET[v] == Upper(c);
      SymbolOf(v);
    }
  }

  /** Without its padding a text is as long as up to its last other character. */
  lemma {:induction false} StrippedIs(text: string)
    ensures Stripped(text) <= text && forall i | |Stripped(text)| <= i < |text| :: text[i] == '='
    ensures Stripped(text) != "" ==> Stripped(text)[|Stripped(text)| - 1] != '='
  {
    if text != "" && text[|text| - 1] == '=' {
      StrippedIs(text[..|text| - 1]);
    }
  }

  /** Letters up to `n`, and after them nothing but `=`. */
  predicate IsPadded(text: string, n: nat)
    requires n <= |text|
  {
    (forall i | 0 <= i < n :: IsLetter(text[i])) && forall i | n <= i < |text| :: text[i] == '='
  }

  /** A text decodes exactly when it is letters of either case and digits from 2 to 7, and after them only padding. */
  lemma DecodesExactly(text: string)
    ensures Decoded(text).Some? <==> exists n :: 0 <= n <= |text| && IsPadded(text, n)
  {
    hide IndexOf, Unpacked, Stripped;
    var upper := UpperAll(text);
    var cleaned := Stripped(upper);
    StrippedIs(upper);
    forall i | 0 <= i < |text|
      ensures IndexOf(ALPHABET, upper[i]).Some? <==> IsLetter(text[i])
      ensures upper[i] == '=' <==> text[i] == '='
    {
      LettersAre(text[i]);
    }
    assert forall i | 0 <= i < |cleaned| :: cleaned[i] == upper[i];
    if n :| 0 <= n <= |text| && IsPadded(text, n) {
      assert cleaned != "" ==> text[|cleaned| - 1] != '=';
    }
    if IsSpelling(cleaned) {
      assert IsPadded(text, |cleaned|);
    }
  }

  /** Neither the case of a letter nor the padding is part of what a text decodes to. */
  lemma CaseIsNothing(text: string, other: string, padding: nat)
    requires |text| == |other|
    requires forall i | 0 <= i < |text| ::
               other[i] == text[i] || ('A' <= text[i] <= 'Z' && other[i] as int == text[i] as int + 32)
    ensures Decoded(other + Padding(padding)) == Decoded(text)
  {
    assert UpperAll(other) == UpperAll(text);
    assert UpperAll(other + Padding(padding)) == UpperAll(other) + Padding(padding);
    MorePadding(UpperAll(other), padding);
  }

  lemma {:induction false} MorePadding(text: string, n: nat)
    ensures Stripped(text + Padding(n)) == Stripped(text)
  {
    var all := text + Padding(n);
    if n > 0 {
      assert all[..|all| - 1] == text + Padding(n - 1);
      MorePadding(text, n - 1);
    } else {
      assert all == text;
    }
  }
}
