/**
 * 32-bit integers as the middleware meets them: `int.TryParse` of a query value,
 * `int.ToString()`, and `BitConverter.GetBytes(int)` on a little-endian machine.
 */
module Int32 {
  import opened Wrappers
  import opened Text

  type byte = b: int | 0 <= b < 256

  const MinValue: int := -0x8000_0000
  const MaxValue: int := 0x7FFF_FFFF

  predicate InRange(n: int)
  {
    MinValue <= n <= MaxValue
  }

  predicate IsDigit(c: char)
  {
    '0' <= c <= '9'
  }

  predicate AllDigits(s: string)
  {
    forall i :: 0 <= i < |s| ==> IsDigit(s[i])
  }

  /** The value of a run of decimal digits, most significant first. */
  function DigitsValue(s: string): (n: nat)
    requires AllDigits(s)
  {
    if s == [] then 0 else DigitsValue(s[..|s| - 1]) * 10 + (s[|s| - 1] as int - '0' as int)
  }

  /** The white space `NumberStyles.AllowLeadingWhite` and `AllowTrailingWhite` skip: U+0009 to U+000D and U+0020. */
  predicate IsParseWhite(c: char)
  {
    c == ' ' || '\t' <= c <= '\r'
  }

  predicate IsNul(c: char)
  {
    c == '\0'
  }

  predicate AllParseWhite(s: string)
  {
    forall i :: 0 <= i < |s| ==> IsParseWhite(s[i])
  }

  predicate AllNul(s: string)
  {
    forall i :: 0 <= i < |s| ==> IsNul(s[i])
  }

  /** `s` without the white space it starts with. */
  function SkipLeadingWhite(s: string): (r: string)
    ensures |r| <= |s| && r == s[|s| - |r|..]
    ensures AllParseWhite(s[..|s| - |r|])
    ensures r != [] ==> !IsParseWhite(r[0])
  {
    if s != [] && IsParseWhite(s[0]) then
      var r := SkipLeadingWhite(s[1..]);
      assert s[..|s| - |r|] == [s[0]] + s[1..][..|s| - 1 - |r|];
      r
    else s
  }

  /** `s` without the NULs it ends with. */
  function DropTrailingNuls(s: string): (r: string)
    ensures |r| <= |s| && r == s[..|r|]
    ensures AllNul(s[|r|..])
    ensures r != [] ==> !IsNul(r[|r| - 1])
  {
    if s != [] && IsNul(s[|s| - 1]) then
      var r := DropTrailingNuls(s[..|s| - 1]);
      assert s[|r|..] == s[..|s| - 1][|r|..] + [s[|s| - 1]];
      r
    else s
  }

  /** `s` without the white space it ends with. */
  function DropTrailingWhite(s: string): (r: string)
    ensures |r| <= |s| && r == s[..|r|]
    ensures AllParseWhite(s[|r|..])
    ensures r != [] ==> !IsParseWhite(r[|r| - 1])
  {
    if s != [] && IsParseWhite(s[|s| - 1]) then
      var r := DropTrailingWhite(s[..|s| - 1]);
      assert s[|r|..] == s[..|s| - 1][|r|..] + [s[|s| - 1]];
      r
    else s
  }

  /** Leading white space in front of a non-white character is skipped exactly. */
  lemma {:induction false} SkipLeadingWhitePadded(lead: string, x: string)
    requires AllParseWhite(lead) && x != [] && !IsParseWhite(x[0])
    ensures SkipLeadingWhite(lead + x) == x
  {
    if lead != [] {
      assert (lead + x)[1..] == lead[1..] + x;
      SkipLeadingWhitePadded(lead[1..], x);
    } else {
      assert lead + x == x;
    }
  }

  /** Trailing NULs after a non-NUL character are dropped exactly. */
  lemma {:induction false} DropTrailingNulsPadded(x: string, zeros: string)
    requires AllNul(zeros) && x != [] && !IsNul(x[|x| - 1])
    ensures DropTrailingNuls(x + zeros) == x
  {
    if zeros != [] {
      var shorter := zeros[..|zeros| - 1];
      assert (x + zeros)[..|x + zeros| - 1] == x + shorter;
      DropTrailingNulsPadded(x, shorter);
    } else {
      assert x + zeros == x;
    }
  }

  /** Trailing white space after a non-white character is dropped exactly. */
  lemma {:induction false} DropTrailingWhitePadded(x: string, trail: string)
    requires AllParseWhite(trail) && x != [] && !IsParseWhite(x[|x| - 1])
    ensures DropTrailingWhite(x + trail) == x
  {
    if trail != [] {
      var shorter := trail[..|trail| - 1];
      assert (x + trail)[..|x + trail| - 1] == x + shorter;
      DropTrailingWhitePadded(x, shorter);
    } else {
      assert x + trail == x;
    }
  }

  /**
   * The number `int.TryParse` reads with `NumberStyles.Integer`: it skips leading white
   * space, reads the number, skips trailing white space, and then accepts only NUL
   * characters up to the end of the string.
   */
  function Core(s: string): string
  {
    DropTrailingWhite(DropTrailingNuls(SkipLeadingWhite(s)))
  }

  lemma SkipSplit(s: string)
    ensures s == s[..|s| - |SkipLeadingWhite(s)|] + SkipLeadingWhite(s)
  {
  }

  lemma NulSplit(s: string)
    ensures s == DropTrailingNuls(s) + s[|DropTrailingNuls(s)|..]
  {
  }

  lemma WhiteSplit(s: string)
    ensures s == DropTrailingWhite(s) + s[|DropTrailingWhite(s)|..]
  {
  }

  lemma JoinFour(s: string, lead: string, rest: string, mid: string, core: string, trail: string, zeros: string)
    requires s == lead + rest && rest == mid + zeros && mid == core + trail
    ensures s == lead + core + trail + zeros
  {
    assert lead + core + trail == lead + mid;
  }

  lemma SplitWitness(s: string, core: string, lead: string, trail: string, zeros: string)
    requires s == lead + core + trail + zeros
    requires AllParseWhite(lead) && AllParseWhite(trail) && AllNul(zeros)
    ensures exists lead, trail, zeros ::
      && s == lead + core + trail + zeros
      && AllParseWhite(lead) && AllParseWhite(trail) && AllNul(zeros)
  {
  }

  /** Everything around `Core(s)` is white space in front of it, or white space and then NULs after it. */
  lemma CoreSplit(s: string)
    ensures exists lead, trail, zeros ::
      && s == lead + Core(s) + trail + zeros
      && AllParseWhite(lead) && AllParseWhite(trail) && AllNul(zeros)
  {
    var rest := SkipLeadingWhite(s);
    var mid := DropTrailingNuls(rest);
    var core := DropTrailingWhite(mid);
    var lead, trail, zeros := s[..|s| - |rest|], mid[|core|..], rest[|mid|..];
    SkipSplit(s);
    NulSplit(rest);
    WhiteSplit(mid);
    JoinFour(s, lead, rest, mid, core, trail, zeros);
    SplitWitness(s, core, lead, trail, zeros);
  }

  /** Padding a number with white space and trailing NULs does not change the number read. */
  lemma CorePadded(lead: string, core: string, trail: string, zeros: string)
    requires AllParseWhite(lead) && AllParseWhite(trail) && AllNul(zeros)
    requires core != [] && !IsParseWhite(core[0]) && !IsParseWhite(core[|core| - 1]) && !IsNul(core[|core| - 1])
    ensures Core(lead + core + trail + zeros) == core
  {
    var x := core + trail;
    var y := x + zeros;
    assert lead + core + trail + zeros == lead + y;
    assert y[0] == core[0];
    SkipLeadingWhitePadded(lead, y);
    assert x[|x| - 1] == if trail == [] then core[|core| - 1] else trail[|trail| - 1];
    DropTrailingNulsPadded(x, zeros);
    DropTrailingWhitePadded(core, trail);
  }

  /** A character that is not white space is not skipped as leading white space. */
  lemma SkipLeadingWhiteKeeps(s: string, k: nat)
    requires k < |s| && !IsParseWhite(s[k])
    ensures |s| - |SkipLeadingWhite(s)| <= k
  {
    var n := |s| - |SkipLeadingWhite(s)|;
    assert forall i :: 0 <= i < n ==> s[..n][i] == s[i];
  }

  /** A character that is not NUL is not dropped as a trailing NUL. */
  lemma DropTrailingNulsKeeps(s: string, k: nat)
    requires k < |s| && !IsNul(s[k])
    ensures k < |DropTrailingNuls(s)|
  {
    var n := |DropTrailingNuls(s)|;
    assert forall i :: n <= i < |s| ==> s[n..][i - n] == s[i];
  }

  /** A character that is not white space is not dropped as trailing white space. */
  lemma DropTrailingWhiteKeeps(s: string, k: nat)
    requires k < |s| && !IsParseWhite(s[k])
    ensures k < |DropTrailingWhite(s)|
  {
    var n := |DropTrailingWhite(s)|;
    assert forall i :: n <= i < |s| ==> s[n..][i - n] == s[i];
  }

  /** A character that is neither white space nor NUL lies inside the number `int.TryParse` reads. */
  lemma ContentIsInCore(s: string, k: nat)
    requires k < |s| && !IsParseWhite(s[k]) && !IsNul(s[k])
    ensures s[k] in Core(s)
  {
    var r1 := SkipLeadingWhite(s);
    SkipLeadingWhiteKeeps(s, k);
    var k1 := k - (|s| - |r1|);
    assert r1[k1] == s[k];
    var r2 := DropTrailingNuls(r1);
    DropTrailingNulsKeeps(r1, k1);
    assert r2[k1] == s[k];
    var r3 := DropTrailingWhite(r2);
    DropTrailingWhiteKeeps(r2, k1);
    assert r3[k1] == s[k];
  }

  /** The value of a sign and a run of digits. */
  function SignedValue(sign: string, digits: string): int
    requires AllDigits(digits)
  {
    var magnitude: int := DigitsValue(digits);
    if sign == "-" then -magnitude else magnitude
  }

  /** The number in the middle of the text: an optional `+` or `-`, then at least one decimal digit, within 32 bits. */
  function ReadSigned(t: string): (r: Option<int>)
    ensures r.Some? ==> InRange(r.value)
  {
    var negative := |t| > 0 && t[0] == '-';
    var digits := if |t| > 0 && (t[0] == '-' || t[0] == '+') then t[1..] else t;
    if digits == [] || !AllDigits(digits) then None
    else
      var magnitude: int := DigitsValue(digits);
      var n := if negative then -magnitude else magnitude;
      if InRange(n) then Some(n) else None
  }

  /**
   * `int.TryParse(s, out n)` with `NumberStyles.Integer` and invariant signs: optional white
   * space, an optional `+` or `-`, at least one decimal digit, optional white space, optional
   * NUL characters, and a value that fits in 32 bits. A null string (`None`) does not parse.
   */
  function TryParse(s: Option<string>): (r: Option<int>)
    ensures r.Some? ==> InRange(r.value)
  {
    match s
    case None => None
    case Some(text) => ReadSigned(Core(text))
  }

  /** A sign and a run of digits read as the value they denote, when it fits in 32 bits. */
  lemma ReadSignedDigits(sign: string, digits: string)
    requires sign == "" || sign == "+" || sign == "-"
    requires digits != [] && AllDigits(digits)
    ensures ReadSigned(sign + digits) ==
      (if InRange(SignedValue(sign, digits)) then Some(SignedValue(sign, digits)) else None)
  {
    var t := sign + digits;
    if sign == "" {
      assert t == digits;
    } else {
      assert t[0] == sign[0] && t[1..] == digits;
    }
  }

  /**
   * Every text of the accepted shape parses, to the value its sign and digits denote, exactly
   * when that value fits in 32 bits; the white space and NULs around it make no difference.
   */
  lemma TryParseAccepts(lead: string, sign: string, digits: string, trail: string, zeros: string)
    requires AllParseWhite(lead) && AllParseWhite(trail) && AllNul(zeros)
    requires sign == "" || sign == "+" || sign == "-"
    requires digits != [] && AllDigits(digits)
    ensures TryParse(Some(lead + sign + digits + trail + zeros)) ==
      (if InRange(SignedValue(sign, digits)) then Some(SignedValue(sign, digits)) else None)
  {
    var core := sign + digits;
    assert lead + sign + digits + trail + zeros == lead + core + trail + zeros;
    assert core[|core| - 1] == digits[|digits| - 1];
    assert core[0] == if sign == "" then digits[0] else sign[0];
    CorePadded(lead, core, trail, zeros);
    ReadSignedDigits(sign, digits);
  }

  /**
   * Only texts of that shape parse: the number inside the padding (see `CoreSplit`) is an
   * optional sign followed by at least one decimal digit, and the result is their value.
   */
  lemma TryParseOnlyAccepts(s: string)
    requires TryParse(Some(s)).Some?
    ensures var t := Core(s);
      && t != []
      && (t[0] == '+' || t[0] == '-' ==>
            |t| > 1 && AllDigits(t[1..]) && TryParse(Some(s)).value == SignedValue(t[..1], t[1..]))
      && (t[0] != '+' && t[0] != '-' ==> AllDigits(t) && TryParse(Some(s)).value == SignedValue("", t))
  {
    var t := Core(s);
    if t[0] == '-' {
      assert t[..1] == "-";
    }
  }

  /** Text with any character other than a sign, a digit, white space or NUL does not parse. */
  lemma StrayCharacterRejected(s: string, k: nat)
    requires k < |s| && !IsParseWhite(s[k]) && !IsNul(s[k]) && !IsDigit(s[k]) && s[k] != '+' && s[k] != '-'
    ensures TryParse(Some(s)) == None
  {
    ContentIsInCore(s, k);
    var t := Core(s);
    var j :| 0 <= j < |t| && t[j] == s[k];
    if ReadSigned(t).Some? {
      if t[0] == '-' || t[0] == '+' {
        assert j > 0 && t[1..][j - 1] == t[j];
      } else {
        assert t[j] == s[k];
      }
    }
  }

  /** Without padding: a sign and digits alone parse to their value when it fits. */
  lemma TryParseUnpadded(sign: string, digits: string)
    requires sign == "" || sign == "+" || sign == "-"
    requires digits != [] && AllDigits(digits)
    ensures TryParse(Some(sign + digits)) ==
      (if InRange(SignedValue(sign, digits)) then Some(SignedValue(sign, digits)) else None)
  {
    var none: string := [];
    NoPadding(sign, digits);
    TryParseAccepts(none, sign, digits, none, none);
  }

  lemma NoPadding(sign: string, digits: string)
    ensures var none: string := []; none + sign + digits + none + none == sign + digits
  {
  }

  /** Digits one at a time: the value of `prefix` followed by `d`. */
  lemma DigitsValueSnoc(prefix: string, d: char)
    requires AllDigits(prefix) && IsDigit(d)
    ensures AllDigits(prefix + [d]) && DigitsValue(prefix + [d]) == DigitsValue(prefix) * 10 + (d as int - '0' as int)
  {
    assert (prefix + [d])[..|prefix|] == prefix;
  }

  /** Texts with a character that cannot belong to a number do not parse, no-break space included. */
  lemma StrayCharacterExamples()
    ensures TryParse(Some("abc")) == None
    ensures TryParse(Some("1.5")) == None
    ensures TryParse(Some("1,2")) == None
    ensures TryParse(Some("\U{00A0}42")) == None
  {
    StrayCharacterRejected("abc", 0);
    StrayCharacterRejected("1.5", 1);
    StrayCharacterRejected("1,2", 1);
    StrayCharacterRejected("\U{00A0}42", 0);
  }

  /** The empty text does not parse. */
  lemma EmptyRejected()
    ensures TryParse(Some("")) == None
  {
  }

  /** White space around the number is skipped. */
  lemma PaddedWithWhite(s: string)
    requires s == " -7\t"
    ensures TryParse(Some(s)) == Some(-7)
  {
    var lead, sign, digits, trail, none := " ", "-", "7", "\t", "";
    assert s == lead + sign + digits + trail + none;
    assert DigitsValue(digits) == 7 by {
      DigitsValueSnoc(none, '7');
    }
    TryParseAccepts(lead, sign, digits, trail, none);
  }

  /** NULs after the number are skipped. */
  lemma PaddedWithNul(s: string)
    requires s == "42\0"
    ensures TryParse(Some(s)) == Some(42)
  {
    var none, four, digits, zeros := "", "4", "42", "\0";
    assert s == none + none + digits + none + zeros;
    assert DigitsValue(digits) == 42 by {
      DigitsValueSnoc(none, '4');
      assert digits == four + ['2'];
      DigitsValueSnoc(four, '2');
    }
    TryParseAccepts(none, none, digits, none, zeros);
  }

  /** Decimal digits of a natural number, without leading zeros. */
  function NatToDigits(n: nat): (s: string)
    ensures s != [] && AllDigits(s)
    ensures DigitsValue(s) == n
  {
    if n < 10 then ["0123456789"[n]]
    else
      var prefix := NatToDigits(n / 10);
      var s := prefix + ["0123456789"[n % 10]];
      assert s[..|s| - 1] == prefix;
      s
  }

  /** `n.ToString()` with the invariant culture. */
  function ToText(n: int): (s: string)
  {
    if n < 0 then "-" + NatToDigits(-n) else NatToDigits(n)
  }

  /**
   * Every 32-bit integer, zero and negative ones included, parses back from its decimal text,
   * and the text of every integer outside 32 bits (such as 2147483648) does not parse.
   */
  lemma TryParseToText(n: int)
    ensures TryParse(Some(ToText(n))) == if InRange(n) then Some(n) else None
  {
    if n < 0 {
      TryParseUnpadded("-", NatToDigits(-n));
    } else {
      TryParseUnpadded("", NatToDigits(n));
      assert "" + NatToDigits(n) == ToText(n);
    }
  }
  /** `100` parses to 100. */
  lemma HundredParses(s: string)
    requires s == "100"
    ensures TryParse(Some(s)) == Some(100)
  {
    var one, ten := NatToDigits(1), NatToDigits(10);
    assert one == "1";
    assert ten == one + "0";
    assert NatToDigits(100) == ten + "0";
    assert ten + "0" == s;
    assert ToText(100) == s;
    TryParseToText(100);
  }


  /** `BitConverter.GetBytes(n)`: the two's-complement bytes of `n`, least significant first. */
  function LittleEndian(n: int): (b: seq<byte>)
    requires InRange(n)
    ensures |b| == 4
  {
    var u := n % 0x1_0000_0000;
    [u % 0x100, (u / 0x100) % 0x100, (u / 0x1_0000) % 0x100, (u / 0x100_0000) % 0x100]
  }

  /** `BitConverter.ToInt32`: reads four little-endian bytes back as a signed integer. */
  function FromLittleEndian(b: seq<byte>): (n: int)
    requires |b| == 4
  {
    var u := b[0] as int + 0x100 * b[1] as int + 0x1_0000 * b[2] as int + 0x100_0000 * b[3] as int;
    if u < 0x8000_0000 then u else u - 0x1_0000_0000
  }

  /** The four bytes determine the integer: no two 32-bit integers share an encoding. */
  lemma LittleEndianRoundTrip(n: int)
    requires InRange(n)
    ensures FromLittleEndian(LittleEndian(n)) == n
  {
    var u := n % 0x1_0000_0000;
    assert u == if n < 0 then n + 0x1_0000_0000 else n;
    var q1 := u / 0x100;
    var q2 := q1 / 0x100;
    var q3 := q2 / 0x100;
    assert u == u % 0x100 + 0x100 * q1;
    assert q1 == q1 % 0x100 + 0x100 * q2;
    assert q2 == q2 % 0x100 + 0x100 * q3;
    assert q3 < 0x100;
    assert u / 0x1_0000 == q2;
    assert u / 0x100_0000 == q3;
    var b := LittleEndian(n);
    assert b[0] as int + 0x100 * b[1] as int + 0x1_0000 * b[2] as int + 0x100_0000 * b[3] as int == u;
  }

  lemma LittleEndianInjective(m: int, n: int)
    requires InRange(m) && InRange(n)
    ensures LittleEndian(m) == LittleEndian(n) ==> m == n
  {
    LittleEndianRoundTrip(m);
    LittleEndianRoundTrip(n);
  }
}
