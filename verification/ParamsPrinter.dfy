/**
 `pcm_params_to_string` of `src/pcm.c`: text logged piece by piece into a
 buffer that may be too small, through nested calls each given what is left of it.
 */
module ParamsPrinter {
  import opened Wrappers
  import RingPointers

  // ---------------------------------------------------------------- the text

  function Digit(d: nat): char
    requires d < 16
  {
    "0123456789abcdef"[d]
  }

  function Digits(n: nat, radix: nat): string
    requires 2 <= radix <= 16
  {
    if n < radix then [Digit(n)] else Digits(n / radix, radix) + [Digit(n % radix)]
  }

  function Repeat(c: char, n: int): string {
    if n <= 0 then "" else [c] + Repeat(c, n - 1)
  }

  /** "%u" and "%d" of a natural number. */
  function Decimal(n: nat): string {
    Digits(n, 10)
  }

  /** "%#08x": zero has no prefix. */
  function Hex(n: nat): string {
    if n == 0 then "00000000"
    else
      var d := Digits(n, 16);
      "0x" + Repeat('0', 6 - |d|) + d
  }

  /** "%12s" and the like. */
  function Padded(s: string, width: nat): string {
    Repeat(' ', width - |s|) + s
  }

  /** `struct pcm_mask`: eight words of 32 bits. */
  datatype Mask = Mask(bits: seq<nat>) {
    predicate Valid() {
      |bits| == 8
    }
  }

  function Pow2(k: nat): (p: nat)
    ensures p > 0
  {
    if k == 0 then 1 else 2 * Pow2(k - 1)
  }

  /** `pcm_mask_test`. */
  predicate MaskTest(m: Mask, index: nat) {
    index / 32 < |m.bits| && m.bits[index / 32] / Pow2(index % 32) % 2 == 1
  }

  function NameLine(table: seq<Option<string>>, i: nat): string
    requires i < |table|
  {
    Padded("", 12) + " \t" + (if table[i].Some? then table[i].value else "(null)") + "\n"
  }

  /** The lines naming the bits set among the first `n`. */
  function NameLines(m: Mask, table: seq<Option<string>>, n: nat): string
    requires n <= |table|
  {
    if n == 0 then ""
    else NameLines(m, table, n - 1) + (if MaskTest(m, n - 1) then NameLine(table, n - 1) else "")
  }

  function WordLine(m: Mask, name: string, i: nat): string
    requires i < |m.bits|
  {
    Padded(name, 9) + "[" + Decimal(i) + "]:\t" + Hex(m.bits[i]) + "\n"
  }

  function WordLines(m: Mask, name: string, n: nat): string
    requires n <= |m.bits|
  {
    if n == 0 then "" else WordLines(m, name, n - 1) + WordLine(m, name, n - 1)
  }

  function HeadLine(m: Mask, name: string): string
    requires m.Valid()
  {
    Padded(name, 12) + ":\t" + Hex(m.bits[0]) + "\n"
  }

  /** The number of words a mask with `n` names spans. */
  function Words(n: nat): nat {
    (n + 31) / 32
  }

  /** All that `pcm_mask_to_string` has to say. */
  function MaskText(m: Mask, name: string, table: seq<Option<string>>): string
    requires m.Valid() && |table| <= 256
  {
    (if |table| < 32 then HeadLine(m, name) else WordLines(m, name, Words(|table|)))
    + NameLines(m, table, |table|)
  }

  /** What `pcm_params_to_string` reads of the parameters. */
  datatype Params = Params(access: Mask, format: Mask, subformat: Mask,
                           rate: (nat, nat), channels: (nat, nat), sampleBits: (nat, nat),
                           periodSize: (nat, nat), periods: (nat, nat)) {
    predicate Valid() {
      access.Valid() && format.Valid() && subformat.Valid()
    }
  }

  /** The name tables, which the printer is given. */
  datatype Tables = Tables(access: seq<Option<string>>, format: seq<Option<string>>, subformat: seq<Option<string>>) {
    predicate Valid() {
      |access| <= 256 && |format| <= 256 && |subformat| <= 256
    }
  }

  function RateLine(range: (nat, nat)): string {
    "        Rate:\tmin=" + Decimal(range.0) + "Hz\tmax=" + Decimal(range.1) + "Hz\n"
  }

  function CountLine(title: string, range: (nat, nat)): string {
    title + ":\tmin=" + Decimal(range.0) + "\t\tmax=" + Decimal(range.1) + "\n"
  }

  /** All that `pcm_params_to_string` has to say. */
  function ParamsText(p: Params, t: Tables): string
    requires p.Valid() && t.Valid()
  {
    MaskText(p.access, "Access", t.access)
    + MaskText(p.format, "Format", t.format)
    + MaskText(p.subformat, "Subformat", t.subformat)
    + RateLine(p.rate)
    + CountLine("    Channels", p.channels)
    + CountLine(" Sample bits", p.sampleBits)
    + CountLine(" Period size", p.periodSize)
    + CountLine("Period count", p.periods)
  }

  // ---------------------------------------------------------------- what the text tells

  /** A digit read. */
  function DigitOf(c: char): nat {
    if '0' <= c <= '9' then c as nat - '0' as nat
    else if 'a' <= c <= 'f' then c as nat - 'a' as nat + 10
    else 16
  }

  /** A number read digit by digit. */
  function NumberOf(s: string, radix: nat): nat {
    if s == "" then 0 else NumberOf(s[..|s| - 1], radix) * radix + DigitOf(s[|s| - 1])
  }

  predicate AllDigits(s: string, radix: nat) {
    forall i :: 0 <= i < |s| ==> DigitOf(s[i]) < radix
  }

  /** A number printed is read back, and begins with a zero only if it is zero. */
  lemma {:induction false} DigitsAreRead(n: nat, radix: nat)
    requires 2 <= radix <= 16
    ensures var s := Digits(n, radix);
      s != "" && AllDigits(s, radix) && NumberOf(s, radix) == n && (n > 0 ==> s[0] != '0')
    decreases n
  {
    DigitIsRead(if n < radix then n else n % radix);
    if n < radix {
      assert [Digit(n)][..0] == "";
    } else {
      DivisionShrinks(n, radix);
      DigitsAreRead(n / radix, radix);
      var s, most := Digits(n, radix), Digits(n / radix, radix);
      assert s[..|s| - 1] == most && s[|s| - 1] == Digit(n % radix);
    }
  }

  lemma DigitIsRead(d: nat)
    requires d < 16
    ensures DigitOf(Digit(d)) == d && (d > 0 ==> Digit(d) != '0')
  {
  }

  lemma DivisionShrinks(n: nat, radix: nat)
    requires 2 <= radix <= n
    ensures 0 < n / radix < n && n / radix * radix + n % radix == n
  {
    var q, r := n / radix, n % radix;
    assert n == q * radix + r;
    assert q == 0 ==> q * radix == 0;
    TwiceAtMost(q, radix);
  }

  lemma TwiceAtMost(q: nat, radix: nat)
    requires 2 <= radix
    ensures 2 * q <= q * radix
  {
  }

  lemma {:induction false} LeadingZeros(k: int, s: string, radix: nat)
    ensures NumberOf(Repeat('0', k) + s, radix) == NumberOf(s, radix)
    decreases |s|, if k < 0 then 0 else k
  {
    var padded := Repeat('0', k) + s;
    if s != "" {
      LeadingZeros(k, s[..|s| - 1], radix);
      assert padded[..|padded| - 1] == Repeat('0', k) + s[..|s| - 1];
    } else if k > 0 {
      LeadingZeros(k - 1, "", radix);
      RepeatLast('0', k);
      assert padded == Repeat('0', k - 1) + ['0'] && Repeat('0', k - 1) + "" == Repeat('0', k - 1);
      assert padded[..|padded| - 1] == Repeat('0', k - 1);
    } else {
      assert padded == "";
    }
  }

  lemma {:induction false} RepeatLast(c: char, k: int)
    ensures k > 0 ==> Repeat(c, k) == Repeat(c, k - 1) + [c]
    ensures |Repeat(c, k)| == if k < 0 then 0 else k
    decreases if k < 0 then 0 else k
  {
    if k > 0 {
      RepeatLast(c, k - 1);
      if k > 1 {
        assert Repeat(c, k) == [c] + (Repeat(c, k - 2) + [c]) == Repeat(c, k - 1) + [c];
      }
    }
  }

  /** A mask word in hexadecimal: at least eight characters, and a prefix unless it is zero. */
  lemma HexIsRead(n: nat)
    ensures |Hex(n)| >= 8
    ensures n > 0 ==> Hex(n)[..2] == "0x" && NumberOf(Hex(n)[2..], 16) == n
    ensures n == 0 ==> NumberOf(Hex(n), 16) == 0
  {
    if n == 0 {
      ZerosAreRead();
    } else {
      var d := Digits(n, 16);
      DigitsAreRead(n, 16);
      hide Digits, NumberOf, Repeat;
      LeadingZeros(6 - |d|, d, 16);
      RepeatLast('0', 6 - |d|);
      assert Hex(n) == "0x" + (Repeat('0', 6 - |d|) + d);
      SameTailOf("0x", Repeat('0', 6 - |d|) + d);
    }
  }

  lemma ZerosAreRead()
    ensures NumberOf("00000000", 16) == 0
  {
    LeadingZeros(8, "", 16);
    hide NumberOf;
    assert Repeat('0', 8) + "" == "00000000" by {
      assert Repeat('0', 4) == "0000";
      assert Repeat('0', 8) == "0000" + Repeat('0', 4);
    }
    EmptyNumber();
  }

  lemma EmptyNumber()
    ensures NumberOf("", 16) == 0
  {
  }

  lemma SameTailOf(head: string, tail: string)
    ensures (head + tail)[|head|..] == tail && (head + tail)[..|head|] == head
  {
  }

  /** Two texts that begin with numbers are the same only if the numbers are. */
  lemma NumberTells(a: nat, b: nat, sep: char, x: string, y: string)
    requires DigitOf(sep) >= 10 && Decimal(a) + ([sep] + x) == Decimal(b) + ([sep] + y)
    ensures a == b && x == y
  {
    DigitsAreRead(a, 10);
    DigitsAreRead(b, 10);
    var s, t := Decimal(a), Decimal(b);
    hide Decimal, NumberOf;
    Shorter(s, t, sep, x, y);
    Shorter(t, s, sep, y, x);
    SameTailOf(s, [sep] + x);
    SameTailOf(t, [sep] + y);
    SameTailOf([sep], x);
    SameTailOf([sep], y);
  }

  lemma CharAt(t: string, more: string, i: nat)
    ensures i < |t| ==> (t + more)[i] == t[i]
  {
  }

  lemma Shorter(s: string, t: string, sep: char, x: string, y: string)
    requires DigitOf(sep) >= 10 && AllDigits(t, 10) && s + ([sep] + x) == t + ([sep] + y)
    ensures |s| >= |t|
  {
    var u, v := s + ([sep] + x), t + ([sep] + y);
    assert u[|s|] == sep;
    CharAt(t, [sep] + y, |s|);
  }

  /** So are two lines that give two numbers each. */
  lemma PairTells(head: string, r: (nat, nat), r': (nat, nat), first: char, middle: string, second: char, tail: string)
    requires DigitOf(first) >= 10 && DigitOf(second) >= 10
    requires head + (Decimal(r.0) + ([first] + (middle + (Decimal(r.1) + ([second] + tail)))))
          == head + (Decimal(r'.0) + ([first] + (middle + (Decimal(r'.1) + ([second] + tail)))))
    ensures r == r'
  {
    hide Decimal, DigitOf;
    var back, back' := Decimal(r.1) + ([second] + tail), Decimal(r'.1) + ([second] + tail);
    SameTail(head, Decimal(r.0) + ([first] + (middle + back)), Decimal(r'.0) + ([first] + (middle + back')));
    NumberTells(r.0, r'.0, first, middle + back, middle + back');
    SameTail(middle, back, back');
    NumberTells(r.1, r'.1, second, tail, tail);
  }

  /** A line tells both ends of its range. */
  lemma LinesTell(title: string, r: (nat, nat), r': (nat, nat))
    ensures CountLine(title, r) == CountLine(title, r') ==> r == r'
    ensures RateLine(r) == RateLine(r') ==> r == r'
  {
    CountLineIs(title, r);
    CountLineIs(title, r');
    RateLineIs(r);
    RateLineIs(r');
    hide CountLine, RateLine, Decimal;
    if CountLine(title, r) == CountLine(title, r') {
      PairTells(title + ":\tmin=", r, r', '\t', "\tmax=", '\n', "");
    }
    if RateLine(r) == RateLine(r') {
      PairTells("        Rate:\tmin=", r, r', 'H', "z\tmax=", 'H', "z\n");
    }
  }

  lemma CountLineIs(title: string, r: (nat, nat))
    ensures CountLine(title, r) == title + ":\tmin=" + (Decimal(r.0) + (['\t'] + ("\tmax=" + (Decimal(r.1) + (['\n'] + "")))))
  {
    hide Decimal;
    assert ['\n'] + "" == "\n" && ['\t'] + "\tmax=" == "\t\tmax=";
  }

  lemma RateLineIs(r: (nat, nat))
    ensures RateLine(r) == "        Rate:\tmin=" + (Decimal(r.0) + (['H'] + ("z\tmax=" + (Decimal(r.1) + (['H'] + "z\n")))))
  {
    hide Decimal;
    assert ['H'] + "z\n" == "Hz\n" && ['H'] + "z\tmax=" == "Hz\tmax=";
  }

  lemma SameTail(head: string, a: string, b: string)
    requires head + a == head + b
    ensures a == b
  {
    assert (head + a)[|head|..] == a && (head + b)[|head|..] == b;
  }

  /** The sum of the powers of two of the bits set among the first `n` of a word. */
  function SumOfBits(m: Mask, word: nat, n: nat): nat
    requires n <= 32
  {
    if n == 0 then 0
    else SumOfBits(m, word, n - 1) + (if MaskTest(m, 32 * word + n - 1) then Pow2(n - 1) else 0)
  }

  /** The bits tested are those of the words: together they are the word. */
  lemma MaskTestIsBit(m: Mask, word: nat)
    requires word < |m.bits| && m.bits[word] < Pow2(32)
    ensures SumOfBits(m, word, 32) == m.bits[word]
  {
    LowBits(m, word, 32);
    SmallModulo(m.bits[word], Pow2(32));
  }

  lemma SmallModulo(a: nat, b: nat)
    requires a < b
    ensures a % b == a
  {
  }

  lemma {:induction false} LowBits(m: Mask, word: nat, n: nat)
    requires word < |m.bits| && n <= 32
    ensures SumOfBits(m, word, n) == m.bits[word] % Pow2(n)
  {
    if n > 0 {
      LowBits(m, word, n - 1);
      assert (32 * word + n - 1) / 32 == word && (32 * word + n - 1) % 32 == n - 1;
      NextBit(m.bits[word], Pow2(n - 1));
    }
  }

  lemma NextBit(w: nat, p: nat)
    requires p > 0
    ensures w % (2 * p) == w % p + (if w / p % 2 == 1 then p else 0)
  {
    var q, r := w / p, w % p;
    var h, b := q / 2, q % 2;
    assert w == q * p + r && q == 2 * h + b;
    assert w == h * (2 * p) + (b * p + r) by {
      assert q * p == (2 * h + b) * p == h * (2 * p) + b * p;
    }
    RingPointers.DivModUnique(w, h, b * p + r, 2 * p);
  }

  /** The line of every bit that is set is part of the text, behind those of the bits below it. */
  lemma {:induction false} NameIsShown(m: Mask, table: seq<Option<string>>, i: nat, n: nat)
    requires i < n <= |table|
    ensures NameLines(m, table, i) + (if MaskTest(m, i) then NameLine(table, i) else "") <= NameLines(m, table, n)
    decreases n
  {
    hide NameLine, MaskTest;
    if n > i + 1 {
      NameIsShown(m, table, i, n - 1);
    }
  }

  /** Names are set to the right in a column. */
  lemma PaddedToTheRight(text: string, width: nat)
    ensures |Padded(text, width)| == if |text| < width then width else |text|
    ensures Padded(text, width)[|Padded(text, width)| - |text|..] == text
  {
    RepeatLast(' ', width - |text|);
    hide Repeat;
    SameTailOf(Repeat(' ', width - |text|), text);
  }

  /** A mask with fewer than 32 names begins with its name and word alone, any other with its words numbered from 0. */
  lemma MaskTextBegins(m: Mask, name: string, table: seq<Option<string>>, i: nat)
    requires m.Valid() && |table| <= 256
    ensures |table| < 32 ==> Padded(name, 12) + ":\t" + Hex(m.bits[0]) + "\n" <= MaskText(m, name, table)
    ensures |table| >= 32 && i < Words(|table|) ==>
      && WordLines(m, name, i) + WordLine(m, name, i) <= MaskText(m, name, table)
      && Padded(name, 9) + "[" + Decimal(i) + "]:\t" + Hex(m.bits[i]) <= WordLine(m, name, i)
  {
    hide Padded, Hex, Decimal;
    if |table| >= 32 && i < Words(|table|) {
      assert WordLines(m, name, i + 1) == WordLines(m, name, i) + WordLine(m, name, i);
      hide NameLines, WordLines;
      WordsInOrder(m, name, i + 1, Words(|table|));
    }
  }

  lemma {:induction false} WordsInOrder(m: Mask, name: string, i: nat, n: nat)
    requires i <= n <= |m.bits|
    ensures WordLines(m, name, i) <= WordLines(m, name, n)
    decreases n
  {
    hide WordLine;
    if i < n {
      WordsInOrder(m, name, i, n - 1);
    }
  }

  /** The words printed are the fewest that hold a bit for every name. */
  lemma WordsSuffice(n: nat)
    ensures n <= 32 * Words(n) && (n > 0 ==> 32 * (Words(n) - 1) < n)
  {
  }

  // ---------------------------------------------------------------- a buffer that holds a beginning of it

  function Min(a: nat, b: nat): nat {
    if a < b then a else b
  }

  /** The `size` characters from `at` on hold as much of the text as fits, and a NUL after it. */
  ghost predicate Shows(buf: seq<char>, at: nat, size: nat, text: string) {
    && at + size <= |buf|
    && (size > 0 ==>
          var k := Min(|text|, size - 1);
          buf[at..at + k] == text[..k] && buf[at + k] == '\0')
  }

  /** Nothing outside the `size` characters from `at` on differs. */
  ghost predicate SameOutside(buf: seq<char>, buf': seq<char>, at: nat, size: nat) {
    && |buf'| == |buf| && at + size <= |buf|
    && buf'[..at] == buf[..at] && buf'[at + size..] == buf[at + size..]
  }

  /** The clipped offset of `STRLOG`. */
  function Clip(offset: nat, size: nat): nat {
    if offset > size then size else offset
  }

  /** Text put where the clipped offset points continues the text before it. */
  lemma ShowsOn(buf: seq<char>, buf': seq<char>, at: nat, size: nat, text: string, more: string)
    requires at + size <= |buf| && (text == "" || Shows(buf, at, size, text))
    requires var clip := Clip(|text|, size);
      Shows(buf', at + clip, size - clip, more) && SameOutside(buf, buf', at + clip, size - clip)
    ensures text + more != "" ==> Shows(buf', at, size, text + more)
    ensures SameOutside(buf, buf', at, size)
  {
    var clip := Clip(|text|, size);
    assert buf'[..at] == buf'[..at + clip][..at] == buf[..at + clip][..at] == buf[..at];
    if size > 0 {
      if |text| >= size {
        ShownAlready(buf, buf', at, size, text, more);
      } else {
        ShownInTheRest(buf, buf', at, size, text, more);
      }
    }
  }

  lemma SliceOfPrefix(s: seq<char>, n: nat, lo: nat, hi: nat)
    requires lo <= hi <= n <= |s|
    ensures s[lo..hi] == s[..n][lo..hi]
  {
  }

  lemma ShownAlready(buf: seq<char>, buf': seq<char>, at: nat, size: nat, text: string, more: string)
    requires 0 < size <= |text| && Shows(buf, at, size, text)
    requires |buf'| == |buf| && buf'[..at + size] == buf[..at + size]
    ensures Shows(buf', at, size, text + more)
  {
    var k := size - 1;
    SliceOfPrefix(buf', at + size, at, at + k);
    SliceOfPrefix(buf, at + size, at, at + k);
    assert (text + more)[..k] == text[..k];
    assert buf'[at + k] == buf'[..at + size][at + k] == buf[..at + size][at + k];
  }

  lemma ShownInTheRest(buf: seq<char>, buf': seq<char>, at: nat, size: nat, text: string, more: string)
    requires |text| < size && at + size <= |buf| && (text == "" || Shows(buf, at, size, text))
    requires Shows(buf', at + |text|, size - |text|, more)
    requires |buf'| == |buf| && buf'[..at + |text|] == buf[..at + |text|]
    ensures Shows(buf', at, size, text + more)
  {
    var k := Min(|text + more|, size - 1);
    var rest := k - |text|;
    assert buf'[at..at + |text|] == buf'[..at + |text|][at..] == buf[..at + |text|][at..] == buf[at..at + |text|];
    assert buf'[at..at + |text|] == text by {
      if text != "" {
        assert text[..|text|] == text;
      }
    }
    assert buf'[at..at + k] == buf'[at..at + |text|] + buf'[at + |text|..at + k];
    assert (text + more)[..k] == text + more[..rest];
  }

  // ---------------------------------------------------------------- the code

  /** `snprintf` of a formatted text into what a buffer has left. */
  method Snprintf(buf: array<char>, at: nat, size: nat, text: string) returns (len: nat)
    requires at + size <= buf.Length
    modifies buf
    ensures len == |text|
    ensures Shows(buf[..], at, size, text) && SameOutside(old(buf[..]), buf[..], at, size)
  {
    len := |text|;
    if size > 0 {
      var k := Min(|text|, size - 1);
      forall i | 0 <= i < k {
        buf[at + i] := text[i];
      }
      buf[at + k] := '\0';
    }
  }

  /** The macro `STRLOG`. */
  method Strlog(buf: array<char>, at: nat, size: nat, offset: nat, text: string, ghost before: string) returns (offset': nat)
    requires at + size <= buf.Length && offset == |before| && text != ""
    requires before == "" || Shows(buf[..], at, size, before)
    modifies buf
    ensures offset' == |before + text|
    ensures Shows(buf[..], at, size, before + text) && SameOutside(old(buf[..]), buf[..], at, size)
  {
    hide Shows, SameOutside;
    var clipoffset := Clip(offset, size);
    ghost var buf0 := buf[..];
    var temp := Snprintf(buf, at + clipoffset, size - clipoffset, text);
    ShowsOn(buf0, buf[..], at, size, before, text);
    offset' := offset;
    if temp > 0 {
      offset' := offset + temp;
    }
  }

  lemma SameOutsideTransitive(a: seq<char>, b: seq<char>, c: seq<char>, at: nat, size: nat)
    requires SameOutside(a, b, at, size) && SameOutside(b, c, at, size)
    ensures SameOutside(a, c, at, size)
  {
  }

  lemma SameOutsideReflexive(a: seq<char>, at: nat, size: nat)
    requires at + size <= |a|
    ensures SameOutside(a, a, at, size)
  {
  }

  /** The loop of `pcm_mask_to_string` over the words. */
  method PrintWords(buf: array<char>, at: nat, size: nat, m: Mask, name: string, n: nat) returns (offset: nat)
    requires at + size <= buf.Length && 0 < n <= |m.bits|
    modifies buf
    ensures offset == |WordLines(m, name, n)| && WordLines(m, name, n) != ""
    ensures Shows(buf[..], at, size, WordLines(m, name, n)) && SameOutside(old(buf[..]), buf[..], at, size)
  {
    hide Shows, SameOutside, WordLine;
    ghost var buf0 := buf[..];
    SameOutsideReflexive(buf0, at, size);
    offset := 0;
    for i := 0 to n
      invariant offset == |WordLines(m, name, i)|
      invariant i == 0 || (WordLines(m, name, i) != "" && Shows(buf[..], at, size, WordLines(m, name, i)))
      invariant SameOutside(buf0, buf[..], at, size)
    {
      ghost var buf1 := buf[..];
      WordLineNotEmpty(m, name, i);
      offset := Strlog(buf, at, size, offset, WordLine(m, name, i), WordLines(m, name, i));
      SameOutsideTransitive(buf0, buf1, buf[..], at, size);
    }
  }

  lemma WordLineNotEmpty(m: Mask, name: string, i: nat)
    requires i < |m.bits|
    ensures WordLine(m, name, i) != ""
  {
  }

  lemma NameLineNotEmpty(table: seq<Option<string>>, i: nat)
    requires i < |table|
    ensures NameLine(table, i) != ""
  {
  }

  /** `pcm_mask_to_string`. */
  method PrintMask(buf: array<char>, at: nat, size: nat, m: Mask, name: string, table: seq<Option<string>>) returns (offset: nat)
    requires at + size <= buf.Length && m.Valid() && 0 < |table| <= 256
    modifies buf
    ensures offset == |MaskText(m, name, table)| && MaskText(m, name, table) != ""
    ensures Shows(buf[..], at, size, MaskText(m, name, table)) && SameOutside(old(buf[..]), buf[..], at, size)
  {
    hide Shows, SameOutside, NameLine, HeadLine, WordLines, MaskTest;
    ghost var buf0 := buf[..];
    ghost var head;
    if |table| < 32 {
      head := HeadLine(m, name);
      HeadLineNotEmpty(m, name);
      offset := Strlog(buf, at, size, 0, HeadLine(m, name), "");
      assert "" + head == head;
    } else {
      head := WordLines(m, name, Words(|table|));
      offset := PrintWords(buf, at, size, m, name, Words(|table|));
    }
    assert head + "" == head;
    for i := 0 to |table|
      invariant offset == |head + NameLines(m, table, i)|
      invariant Shows(buf[..], at, size, head + NameLines(m, table, i)) && head != ""
      invariant SameOutside(buf0, buf[..], at, size)
    {
      if MaskTest(m, i) {
        ghost var buf1 := buf[..];
        NameLineNotEmpty(table, i);
        offset := Strlog(buf, at, size, offset, NameLine(table, i), head + NameLines(m, table, i));
        assert head + NameLines(m, table, i) + NameLine(table, i) == head + NameLines(m, table, i + 1);
        SameOutsideTransitive(buf0, buf1, buf[..], at, size);
      } else {
        assert NameLines(m, table, i + 1) == NameLines(m, table, i) + "" == NameLines(m, table, i);
      }
    }
  }

  lemma HeadLineNotEmpty(m: Mask, name: string)
    requires m.Valid()
    ensures HeadLine(m, name) != ""
  {
  }

  /** A nested `pcm_mask_to_string`, given what is left of the buffer. */
  method PrintMaskAfter(buf: array<char>, size: nat, offset: nat, ghost before: string, m: Mask, name: string, table: seq<Option<string>>)
    returns (offset': nat)
    requires size <= buf.Length && m.Valid() && 0 < |table| <= 256 && offset == |before|
    requires before == "" || Shows(buf[..], 0, size, before)
    modifies buf
    ensures offset' == |before + MaskText(m, name, table)| && before + MaskText(m, name, table) != ""
    ensures Shows(buf[..], 0, size, before + MaskText(m, name, table)) && SameOutside(old(buf[..]), buf[..], 0, size)
  {
    hide Shows, SameOutside, MaskText;
    var clipoffset := Clip(offset, size);
    ghost var buf0 := buf[..];
    var len := PrintMask(buf, clipoffset, size - clipoffset, m, name, table);
    ShowsOn(buf0, buf[..], 0, size, before, MaskText(m, name, table));
    offset' := offset + len;
  }

  /**
   `pcm_params_to_string`: whatever the size, the return value is the length of the full text and
   the buffer holds the beginning of it that fits, followed by a NUL.
   */
  method ParamsToString(p: Params, t: Tables, buf: array<char>, size: nat) returns (offset: nat)
    requires p.Valid() && t.Valid() && |t.access| > 0 && |t.format| > 0 && |t.subformat| > 0
    requires size <= buf.Length
    modifies buf
    ensures offset == |ParamsText(p, t)|
    ensures size > 0 ==>
      var k := Min(|ParamsText(p, t)|, size - 1);
      buf[..k] == ParamsText(p, t)[..k] && buf[k] == '\0'
    ensures buf[size..] == old(buf[size..])
  {
    hide Shows, SameOutside, MaskText, RateLine, CountLine;
    ghost var buf0 := buf[..];
    ghost var text := "";
    offset := PrintMaskAfter(buf, size, 0, "", p.access, "Access", t.access);
    text := "" + MaskText(p.access, "Access", t.access);
    ghost var buf1 := buf[..];
    offset := PrintMaskAfter(buf, size, offset, text, p.format, "Format", t.format);
    text := text + MaskText(p.format, "Format", t.format);
    SameOutsideTransitive(buf0, buf1, buf[..], 0, size);
    buf1 := buf[..];
    offset := PrintMaskAfter(buf, size, offset, text, p.subformat, "Subformat", t.subformat);
    text := text + MaskText(p.subformat, "Subformat", t.subformat);
    SameOutsideTransitive(buf0, buf1, buf[..], 0, size);
    offset, text := LogLine(buf, size, offset, text, RateLine(p.rate), buf0);
    offset, text := LogLine(buf, size, offset, text, CountLine("    Channels", p.channels), buf0);
    offset, text := LogLine(buf, size, offset, text, CountLine(" Sample bits", p.sampleBits), buf0);
    offset, text := LogLine(buf, size, offset, text, CountLine(" Period size", p.periodSize), buf0);
    offset, text := LogLine(buf, size, offset, text, CountLine("Period count", p.periods), buf0);
    assert text == ParamsText(p, t);
    ShownText(buf[..], buf0, size, text);
  }

  lemma ShownText(buf: seq<char>, buf0: seq<char>, size: nat, text: string)
    requires Shows(buf, 0, size, text) && SameOutside(buf0, buf, 0, size)
    ensures size > 0 ==> var k := Min(|text|, size - 1); buf[..k] == text[..k] && buf[k] == '\0'
    ensures buf[size..] == buf0[size..]
  {
  }

  /** A line of `pcm_params_to_string` itself. */
  method LogLine(buf: array<char>, size: nat, offset: nat, ghost text: string, line: string, ghost buf0: seq<char>)
    returns (offset': nat, ghost text': string)
    requires size <= buf.Length && offset == |text| && text != "" && Shows(buf[..], 0, size, text)
    requires SameOutside(buf0, buf[..], 0, size)
    modifies buf
    ensures text' == text + line && offset' == |text'| && text' != ""
    ensures Shows(buf[..], 0, size, text') && SameOutside(buf0, buf[..], 0, size)
  {
    hide Shows, SameOutside;
    text' := text + line;
    if line == "" {
      assert text' == text;
      return offset, text';
    }
    ghost var buf1 := buf[..];
    offset' := Strlog(buf, 0, size, offset, line, text);
    SameOutsideTransitive(buf0, buf1, buf[..], 0, size);
  }
}
