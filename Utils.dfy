/**
 * The text helpers of fincheck's `utils.py`: digit filtering, alphabet indexing,
 * space stripping, the payload / check-digit split and the match-then-validate
 * extractor. Every one is a pure function of its arguments; Python exceptions
 * become `Failure` values.
 */
module Utils {
  import opened Wrappers
  import opened Chars
  import opened Seqs
  import opened Scan

  /** The Python exception each helper can raise, with its cause. */
  datatype Error =
    | NotInAlphabet(c: char)                 // ValueError from `char_idxs.index(c)`
    | WrongLength(expected: int, actual: nat) // AssertionError in `ensure_format`
    | EmptyInput                              // IndexError from `s[-1]`
    | NotADigit(c: char)                      // ValueError from `int(s[-1])`
    | UndefinedName                           // NameError: `payload` is never bound

  // ---------------------------------------------------------------------------
  // keep_numeric

  /** The digits of `s`, in order. */
  function KeepNumeric(s: string): (r: string)
    ensures forall i :: 0 <= i < |r| ==> IsDigit(r[i])
    ensures forall c :: multiset(r)[c] == if IsDigit(c) then multiset(s)[c] else 0
    ensures IsSubseq(r, s)
  {
    KeepCounts(s, IsDigit);
    KeepSubseq(s, IsDigit);
    Keep(s, IsDigit)
  }

  /** Keeping the digits of an all-digit string changes nothing; so the operation is idempotent. */
  lemma KeepNumericIdempotent(s: string)
    ensures KeepNumeric(KeepNumeric(s)) == KeepNumeric(s)
  {
    KeepIdempotent(s, IsDigit);
  }

  /** A string survives `keep_numeric` unchanged exactly when it is all digits. */
  lemma KeepNumericFixpoint(s: string)
    ensures KeepNumeric(s) == s <==> forall i :: 0 <= i < |s| ==> IsDigit(s[i])
  {
    if forall i :: 0 <= i < |s| ==> IsDigit(s[i]) {
      KeepAll(s, IsDigit);
    }
  }

  /** Digits of a concatenation are the concatenated digits. */
  lemma KeepNumericAppend(a: string, b: string)
    ensures KeepNumeric(a + b) == KeepNumeric(a) + KeepNumeric(b)
  {
    KeepAppend(a, b, IsDigit);
  }

  // ---------------------------------------------------------------------------
  // convert_to_n

  /** `char_idxs` */
  const Alphabet: string := "0123456789ABCDEFGHIJKLMNOPQRSTUVWXYZ"

  lemma AlphabetShape()
    ensures |Alphabet| == 36
    ensures forall j :: 0 <= j < 36 ==> Alphabet[j] as int == if j < 10 then 48 + j else 55 + j
  {
  }

  /** `str.index`: the first position at or after `from` holding `c`. */
  function FirstIndex(t: string, c: char, from: nat): (r: Option<nat>)
    ensures r.Some? ==> from <= r.value < |t| && t[r.value] == c
                        && forall j :: from <= j < r.value ==> t[j] != c
    ensures r.None? ==> forall j :: from <= j < |t| ==> t[j] != c
    decreases |t| - from
  {
    if from >= |t| then None
    else if t[from] == c then Some(from)
    else FirstIndex(t, c, from + 1)
  }

  /** `char_idxs.index(c)`: the position of `c` in the alphabet, or `None` for a ValueError. */
  function AlphabetIndex(c: char): (r: Option<nat>)
    ensures r.Some? ==> r.value < 36 && Alphabet[r.value] == c
    ensures r.None? <==> !(IsDigit(c) || IsUpper(c))
  {
    AlphabetShape();
    AlphabetHolds(c);
    FirstIndex(Alphabet, c, 0)
  }

  /** Digits and capital letters are in the alphabet. */
  lemma AlphabetHolds(c: char)
    ensures IsDigit(c) ==> Alphabet[c as int - 48] == c
    ensures IsUpper(c) ==> Alphabet[c as int - 55] == c
  {
    AlphabetShape();
  }

  /** A digit sits at its own value, a capital letter at ten plus its place in A..Z. */
  lemma AlphabetIndexValue(c: char)
    ensures IsDigit(c) ==> AlphabetIndex(c) == Some(DigitValue(c))
    ensures IsUpper(c) ==> AlphabetIndex(c) == Some(c as int - 'A' as int + 10)
  {
    AlphabetShape();
  }

  /** No character appears twice in the alphabet. */
  lemma AlphabetInjective(j: nat, k: nat)
    requires j < 36 && k < 36 && Alphabet[j] == Alphabet[k]
    ensures j == k
  {
    AlphabetShape();
  }

  /** The list form, `[char_idxs.index(c) for c in list(s)]`. */
  function ConvertToIndices(s: string): (r: Result<seq<nat>, Error>)
    ensures r.Success? <==> forall i :: 0 <= i < |s| ==> IsDigit(s[i]) || IsUpper(s[i])
    ensures r.Success? ==>
      && |r.value| == |s|
      && forall i :: 0 <= i < |s| ==> r.value[i] < 36 && Alphabet[r.value[i]] == s[i]
    ensures r.Failure? ==> r.error.NotInAlphabet? && r.error.c in s
                           && !(IsDigit(r.error.c) || IsUpper(r.error.c))
  {
    if s == [] then Success([])
    else
      match AlphabetIndex(s[0])
      case None => Failure(NotInAlphabet(s[0]))
      case Some(k) =>
        match ConvertToIndices(s[1..])
        case Failure(e) => Failure(e)
        case Success(ks) =>
          Success([k] + ks)
  }

  /** The character at each alphabet position: the inverse of the list form. */
  function FromIndices(ks: seq<nat>): (s: string)
    requires forall i :: 0 <= i < |ks| ==> ks[i] < 36
  {
    AlphabetShape();
    seq(|ks|, i requires 0 <= i < |ks| => Alphabet[ks[i]])
  }

  /** The list form can be read back to the input ... */
  lemma ConvertToIndicesInverse(s: string)
    requires ConvertToIndices(s).Success?
    ensures FromIndices(ConvertToIndices(s).value) == s
  {
  }

  /** ... and every list of positions below 36 is the list form of exactly one string. */
  lemma {:induction false} FromIndicesInverse(ks: seq<nat>)
    requires forall i :: 0 <= i < |ks| ==> ks[i] < 36
    ensures ConvertToIndices(FromIndices(ks)) == Success(ks)
  {
    var s := FromIndices(ks);
    if ks != [] {
      FromIndicesInverse(ks[1..]);
      assert s[1..] == FromIndices(ks[1..]);
      AlphabetInjective(AlphabetIndex(s[0]).value, ks[0]);
      assert [ks[0]] + ks[1..] == ks;
    }
  }

  /** So the list form is injective. */
  lemma ConvertToIndicesInjective(a: string, b: string)
    requires ConvertToIndices(a).Success? && ConvertToIndices(a) == ConvertToIndices(b)
    ensures a == b
  {
    ConvertToIndicesInverse(a);
    ConvertToIndicesInverse(b);
  }

  /** `str(n)`: the decimal rendering of a natural number. */
  function Decimal(n: nat): (r: string)
    ensures |r| > 0 && forall i :: 0 <= i < |r| ==> IsDigit(r[i])
    ensures n < 10 ==> |r| == 1
    ensures 10 <= n < 100 ==> |r| == 2
  {
    if n < 10 then [DigitChar(n)] else Decimal(n / 10) + [DigitChar(n % 10)]
  }

  /** The number a string of decimal digits denotes, as `int(t)` reads it. */
  function DecimalValue(t: string): nat
    requires forall i :: 0 <= i < |t| ==> IsDigit(t[i])
  {
    if t == [] then 0 else 10 * DecimalValue(t[..|t| - 1]) + DigitValue(t[|t| - 1])
  }

  /** `int(str(n)) == n` */
  lemma {:induction false} DecimalRoundTrip(n: nat)
    ensures DecimalValue(Decimal(n)) == n
  {
    var r := Decimal(n);
    if n >= 10 {
      DecimalRoundTrip(n / 10);
      assert r[..|r| - 1] == Decimal(n / 10);
    }
  }

  /** The renderings of a list of positions, joined: `"".join(str(k) for k in ks)`. */
  function JoinDecimals(ks: seq<nat>): (r: string)
    ensures forall i :: 0 <= i < |r| ==> IsDigit(r[i])
  {
    if ks == [] then [] else Decimal(ks[0]) + JoinDecimals(ks[1..])
  }

  /** The string form, `"".join(str(char_idxs.index(c)) for c in list(s))`. */
  function ConvertToDigits(s: string): (r: Result<string, Error>)
    ensures r.Success? <==> forall i :: 0 <= i < |s| ==> IsDigit(s[i]) || IsUpper(s[i])
    ensures r.Success? ==> forall i :: 0 <= i < |r.value| ==> IsDigit(r.value[i])
    ensures r.Failure? ==> r.error.NotInAlphabet? && r.error.c in s
  {
    if s == [] then Success([])
    else
      match AlphabetIndex(s[0])
      case None => Failure(NotInAlphabet(s[0]))
      case Some(k) =>
        match ConvertToDigits(s[1..])
        case Failure(e) => Failure(e)
        case Success(t) => Success(Decimal(k) + t)
  }

  /**
   * The string form is the list form rendered in decimal and joined: it fails on the
   * same inputs, holds only digits, and is one character longer per letter of `s`.
   */
  lemma {:induction false} ConvertToDigitsSpec(s: string)
    ensures ConvertToDigits(s).Success? <==> ConvertToIndices(s).Success?
    ensures ConvertToDigits(s).Success? ==>
      ConvertToDigits(s).value == JoinDecimals(ConvertToIndices(s).value)
      && |ConvertToDigits(s).value| == |s| + |Keep(s, IsUpper)|
    ensures ConvertToDigits(s).Failure? ==> ConvertToDigits(s) == Failure(ConvertToIndices(s).error)
  {
    if s != [] {
      ConvertToDigitsSpec(s[1..]);
      var ks := ConvertToIndices(s[1..]);
      if AlphabetIndex(s[0]).Some? && ks.Success? {
        var k := AlphabetIndex(s[0]).value;
        assert ([k] + ks.value)[1..] == ks.value;
        AlphabetIndexValue(s[0]);
      }
    }
  }

  /** The result of `convert_to_n`: a digit string or a list of positions. */
  datatype Converted = AsString(digits: string) | AsList(indices: seq<nat>)

  /** `convert_to_n(s, return_str)` */
  function ConvertToN(s: string, returnStr: bool := true): (r: Result<Converted, Error>)
    ensures r.Success? <==> forall i :: 0 <= i < |s| ==> IsDigit(s[i]) || IsUpper(s[i])
    ensures r.Success? ==> (r.value.AsString? <==> returnStr)
    ensures r.Success? && returnStr ==>
      |r.value.digits| == |s| + |Keep(s, IsUpper)|
      && forall i :: 0 <= i < |r.value.digits| ==> IsDigit(r.value.digits[i])
    ensures r.Success? && !returnStr ==>
      |r.value.indices| == |s| && forall i :: 0 <= i < |s| ==>
        r.value.indices[i] < 36 && Alphabet[r.value.indices[i]] == s[i]
  {
    ConvertToDigitsSpec(s);
    if returnStr then
      match ConvertToDigits(s)
      case Success(t) => Success(AsString(t))
      case Failure(e) => Failure(e)
    else
      match ConvertToIndices(s)
      case Success(ks) => Success(AsList(ks))
      case Failure(e) => Failure(e)
  }

  /** The string form is not injective: "A" and "10" both become "10". */
  lemma ConvertToDigitsCollision()
    ensures ConvertToDigits("A") == ConvertToDigits("10") == Success("10")
  {
    AlphabetIndexValue('A');
    AlphabetIndexValue('1');
    AlphabetIndexValue('0');
    assert ConvertToDigits("") == Success("");
    assert "A"[1..] == "" && "A"[0] == 'A';
    assert Decimal(10) == "10";
    assert AlphabetIndex('A') == Some(10);
    assert Decimal(10) + "" == "10";
    assert ConvertToDigits("A") == Success("10");
    assert "0"[1..] == "" && "0"[0] == '0';
    assert AlphabetIndex('0') == Some(0);
    assert Decimal(0) + "" == "0";
    assert ConvertToDigits("0") == Success("0");
    assert "10"[1..] == "0" && "10"[0] == '1';
  }

  // ---------------------------------------------------------------------------
  // ensure_format

  predicate NotSpace(c: char) { c != ' ' }

  /**
   * `ensure_format(s, n_chars)`: `s` with every space removed; when `n_chars` is
   * truthy (given and non-zero) the stripped length must equal it.
   */
  function EnsureFormat(s: string, nChars: Option<int> := None): (r: Result<string, Error>)
    ensures var stripped := Keep(s, NotSpace);
      r.Success? <==> (nChars.None? || nChars.value == 0 || |stripped| == nChars.value)
    ensures r.Success? ==>
      && (forall i :: 0 <= i < |r.value| ==> r.value[i] != ' ')
      && (forall c :: multiset(r.value)[c] == if c == ' ' then 0 else multiset(s)[c])
      && IsSubseq(r.value, s)
    ensures r.Failure? ==> r.error == WrongLength(nChars.value, |Keep(s, NotSpace)|)
  {
    var stripped := Keep(s, NotSpace);
    KeepCounts(s, NotSpace);
    KeepSubseq(s, NotSpace);
    if nChars.Some? && nChars.value != 0 && |stripped| != nChars.value then
      Failure(WrongLength(nChars.value, |stripped|))
    else
      Success(stripped)
  }

  /** Formatting a formatted string again gives it back unchanged. */
  lemma EnsureFormatIdempotent(s: string, nChars: Option<int>)
    requires EnsureFormat(s, nChars).Success?
    ensures EnsureFormat(EnsureFormat(s, nChars).value, nChars) == EnsureFormat(s, nChars)
  {
    KeepIdempotent(s, NotSpace);
  }

  /** Without a length, formatting never fails. */
  lemma EnsureFormatUnchecked(s: string)
    ensures EnsureFormat(s).Success? && EnsureFormat(s, Some(0)).Success?
  {
  }

  // ---------------------------------------------------------------------------
  // split_payload

  /** The pair `split_payload` returns: the payload and the check digit, or `None` for it. */
  datatype Split = Split(payload: string, check: Option<nat>)

  /**
   * `split_payload(s, payload_len)`. Without `payload_len` the last character is the
   * check digit; with one longer than `s` the whole string is returned with no
   * check digit; the remaining branch refers to an unbound name and always fails.
   */
  function SplitPayload(s: string, payloadLen: Option<int> := None): (r: Result<Split, Error>)
    ensures payloadLen.None? ==>
      (r.Success? <==> |s| > 0 && IsDigit(s[|s| - 1]))
    ensures payloadLen.None? && r.Success? ==>
      && r.value.payload + [s[|s| - 1]] == s
      && |r.value.payload| == |s| - 1
      && r.value.check == Some(DigitValue(s[|s| - 1]))
    ensures payloadLen.None? && |s| == 0 ==> r == Failure(EmptyInput)
    ensures payloadLen.None? && |s| > 0 && !IsDigit(s[|s| - 1]) ==> r == Failure(NotADigit(s[|s| - 1]))
    ensures payloadLen.Some? && |s| < payloadLen.value ==> r == Success(Split(s, None))
    ensures payloadLen.Some? && |s| >= payloadLen.value ==> r == Failure(UndefinedName)
  {
    match payloadLen
    case None =>
      if |s| == 0 then Failure(EmptyInput)
      else if !IsDigit(s[|s| - 1]) then Failure(NotADigit(s[|s| - 1]))
      else Success(Split(s[..|s| - 1], Some(DigitValue(s[|s| - 1]))))
    case Some(n) =>
      if |s| < n then Success(Split(s, None))
      else Failure(UndefinedName)
  }

  // ---------------------------------------------------------------------------
  // find_and_validate

  /** What a validator admits: the validator's verdict, or everything when none is given. */
  function Admits(validationFn: Option<string -> bool>): string -> bool
  {
    match validationFn
    case Some(v) => v
    case None => (_: string) => true
  }

  /** Every token the scan yields fits the pattern's body. */
  lemma FinditerFits(s: string, pat: Pattern)
    ensures forall t :: t in Groups(Finditer(s, pat, 0)) ==> Fits(t, pat)
  {
    var ms := Finditer(s, pat, 0);
    forall t | t in Groups(ms)
      ensures Fits(t, pat)
    {
      var k :| 0 <= k < |ms| && Groups(ms)[k] == t;
      FinditerSound(s, pat, 0, k);
    }
  }

  /**
   * `find_and_validate(s, pattern, validation_fn)`: the text of every match
   * `re.finditer` yields, kept only when the validator (if any) admits it.
   */
  function FindAndValidate(s: string, pat: Pattern, validationFn: Option<string -> bool> := None): (r: seq<string>)
    ensures forall t :: t in r ==> Fits(t, pat) && Admits(validationFn)(t)
  {
    var matches := Finditer(s, pat, 0);
    FinditerFits(s, pat);
    if |matches| > 0 then
      match validationFn
      case Some(v) =>
        assert forall t :: t in Keep(Groups(matches), v) ==> t in Groups(matches) by {
          forall t { KeepMembership(Groups(matches), v, t); }
        }
        Keep(Groups(matches), v)
      case None => Groups(matches)
    else []
  }

  /** The result is the accepted matches of the reference scan, in order. */
  lemma FindAndValidateReference(s: string, pat: Pattern, validationFn: Option<string -> bool>)
    ensures FindAndValidate(s, pat, validationFn) == Groups(Accepted(s, pat, Admits(validationFn), 0))
  {
    var matches := Finditer(s, pat, 0);
    FinditerComplete(s, pat, Admits(validationFn), 0);
    if validationFn.None? {
      KeepAll(Groups(matches), Admits(None));
    }
  }

  /**
   * What the reference guarantees of `find_and_validate`: every returned token is
   * the text of a boundary-delimited match that the validator admits; the tokens
   * come left to right without overlapping; and no admitted match is missed.
   */
  lemma FindAndValidateSpec(s: string, pat: Pattern, validationFn: Option<string -> bool>)
    ensures var r := FindAndValidate(s, pat, validationFn);
      var ms := Accepted(s, pat, Admits(validationFn), 0);
      && |r| == |ms|
      && (forall k :: 0 <= k < |ms| ==>
            r[k] == ms[k].text && IsMatch(s, pat, ms[k]) && Admits(validationFn)(r[k]))
      && (forall k, l :: 0 <= k < l < |ms| ==> ms[k].start + |pat| <= ms[l].start)
      && (forall i: nat :: MatchesAt(s, pat, i) && Admits(validationFn)(s[i..i + |pat|]) ==>
            Match(i, s[i..i + |pat|]) in ms)
  {
    FindAndValidateReference(s, pat, validationFn);
    var accept := Admits(validationFn);
    var ms := Accepted(s, pat, accept, 0);
    forall k | 0 <= k < |ms|
      ensures IsMatch(s, pat, ms[k]) && accept(ms[k].text)
    {
      AcceptedSound(s, pat, accept, 0, k);
    }
    forall k, l | 0 <= k < l < |ms|
      ensures ms[k].start + |pat| <= ms[l].start
    {
      AcceptedOrdered(s, pat, accept, 0, k, l);
    }
    forall i: nat | MatchesAt(s, pat, i) && accept(s[i..i + |pat|])
      ensures Match(i, s[i..i + |pat|]) in ms
    {
      AcceptedComplete(s, pat, accept, 0, i);
    }
  }

  /** A string with no match yields the empty list, not an error. */
  lemma FindAndValidateNoMatch(s: string, pat: Pattern, validationFn: Option<string -> bool>)
    requires forall i: nat :: !MatchesAt(s, pat, i)
    ensures FindAndValidate(s, pat, validationFn) == []
  {
    FindAndValidateReference(s, pat, validationFn);
    var ms := Accepted(s, pat, Admits(validationFn), 0);
    if ms != [] {
      AcceptedSound(s, pat, Admits(validationFn), 0, 0);
    }
  }
}
