/**
 * fincheck's public extraction API (`extract.py`): one extractor per identifier
 * kind, each a fixed token pattern handed to `find_and_validate` with that kind's
 * checksum validator, and `find_securities`, which runs the requested extractors.
 * The checksum validators live in `validate.py`, outside this model; they are
 * passed in as arbitrary predicates.
 */
module Extract {
  import opened Wrappers
  import opened Chars
  import opened Scan
  import opened Utils

  /** `is_cusip`, `is_isin`, `is_sedol` and `is_aba`, supplied by the caller. */
  datatype Validators = Validators(
    isCusip: string -> bool,
    isIsin: string -> bool,
    isSedol: string -> bool,
    isAba: string -> bool)

  /** A class repeated `n` times, the regex quantifier `{n}`. */
  function Repeat(cls: CharClass, n: nat): (p: seq<CharClass>)
    ensures |p| == n && forall j :: 0 <= j < n ==> p[j] == cls
  {
    if n == 0 then [] else [cls] + Repeat(cls, n - 1)
  }

  /** `[A-Za-z0-9]{8}[0-9]` */
  const CusipPattern: Pattern := Repeat(Alnum, 8) + [Digit]

  /** `[A-Za-z]{2}[A-Za-z0-9]{9}[0-9]` */
  const IsinPattern: Pattern := Repeat(Letter, 2) + Repeat(Alnum, 9) + [Digit]

  /** `[0-9BCDFGHJKLMNPQRSTVWXYZ]{6}[0-9]` */
  const SedolPattern: Pattern := Repeat(SedolChar, 6) + [Digit]

  /** `\d{9}` */
  const AbaPattern: Pattern := Repeat(Digit, 9)

  /** Every token `find_and_validate` returns for `pat` fits `pat` and is admitted by `v`. */
  lemma TokensFit(s: string, pat: Pattern, v: string -> bool)
    ensures forall t :: t in FindAndValidate(s, pat, Some(v)) ==> Fits(t, pat) && v(t)
  {
  }

  /** `get_cusips`: 9-character tokens, eight letters or digits then a digit, that `is_cusip` accepts. */
  function GetCusips(s: string, isCusip: string -> bool): (r: seq<string>)
    ensures forall t :: t in r ==>
      && |t| == 9
      && (forall j :: 0 <= j < 8 ==> IsAlnum(t[j]))
      && IsDigit(t[8])
      && isCusip(t)
  {
    TokensFit(s, CusipPattern, isCusip);
    FindAndValidate(s, CusipPattern, Some(isCusip))
  }

  lemma IsinShape()
    ensures IsinPattern[0] == IsinPattern[1] == Letter
    ensures forall j :: 2 <= j < 11 ==> IsinPattern[j] == Alnum
    ensures IsinPattern[11] == Digit
  {
    var head := Repeat(Letter, 2);
    var mid := Repeat(Alnum, 9);
    assert IsinPattern == head + mid + [Digit];
    assert forall j :: 2 <= j < 11 ==> IsinPattern[j] == mid[j - 2];
  }

  /** `get_isins`: 12-character tokens, two letters, nine letters or digits, a digit, that `is_isin` accepts. */
  function GetIsins(s: string, isIsin: string -> bool): (r: seq<string>)
    ensures forall t :: t in r ==>
      && |t| == 12
      && IsLetter(t[0]) && IsLetter(t[1])
      && (forall j :: 2 <= j < 11 ==> IsAlnum(t[j]))
      && IsDigit(t[11])
      && isIsin(t)
  {
    TokensFit(s, IsinPattern, isIsin);
    IsinShape();
    FindAndValidate(s, IsinPattern, Some(isIsin))
  }


  /** `get_sedols`: 7-character tokens, six digits or capital consonants then a digit, that `is_sedol` accepts. */
  function GetSedols(s: string, isSedol: string -> bool): (r: seq<string>)
    ensures forall t :: t in r ==>
      && |t| == 7
      && (forall j :: 0 <= j < 6 ==> (IsDigit(t[j]) || IsConsonant(t[j])))
      && IsDigit(t[6])
      && isSedol(t)
  {
    TokensFit(s, SedolPattern, isSedol);
    FindAndValidate(s, SedolPattern, Some(isSedol))
  }

  /** `get_abas`: 9-digit tokens that `is_aba` accepts. */
  function GetAbas(s: string, isAba: string -> bool): (r: seq<string>)
    ensures forall t :: t in r ==> |t| == 9 && (forall j :: 0 <= j < 9 ==> IsDigit(t[j])) && isAba(t)
  {
    TokensFit(s, AbaPattern, isAba);
    FindAndValidate(s, AbaPattern, Some(isAba))
  }

  /**
   * Each extractor returns the accepted tokens of the reference scan for its
   * pattern, so what `FindAndValidateSpec` proves (boundaries, order, no overlap,
   * nothing missed) holds of all four.
   */
  lemma ExtractorsFollowReference(s: string, vals: Validators)
    ensures GetCusips(s, vals.isCusip) == Groups(Accepted(s, CusipPattern, vals.isCusip, 0))
    ensures GetIsins(s, vals.isIsin) == Groups(Accepted(s, IsinPattern, vals.isIsin, 0))
    ensures GetSedols(s, vals.isSedol) == Groups(Accepted(s, SedolPattern, vals.isSedol, 0))
    ensures GetAbas(s, vals.isAba) == Groups(Accepted(s, AbaPattern, vals.isAba, 0))
  {
    FindAndValidateReference(s, CusipPattern, Some(vals.isCusip));
    FindAndValidateReference(s, IsinPattern, Some(vals.isIsin));
    FindAndValidateReference(s, SedolPattern, Some(vals.isSedol));
    FindAndValidateReference(s, AbaPattern, Some(vals.isAba));
  }

  /**
   * A CUSIP-shaped token inside a longer run of letters, digits and underscores is
   * never extracted, whatever the validator says.
   */
  lemma EmbeddedCusipIgnored(s: string, isCusip: string -> bool)
    requires |s| > 9
    requires forall j :: 0 <= j < |s| ==> IsWordChar(s[j])
    ensures GetCusips(s, isCusip) == []
  {
    NoMatchInsideRun(s, CusipPattern, isCusip);
    FindAndValidateReference(s, CusipPattern, Some(isCusip));
  }

  /**
   * Nine characters preceded or followed by a letter, digit or underscore are never
   * extracted as a CUSIP at that position, whatever the validator says.
   */
  lemma CusipTouchingWordIgnored(s: string, isCusip: string -> bool, i: nat)
    requires (0 < i <= |s| && IsWordChar(s[i - 1])) || (i + 9 < |s| && IsWordChar(s[i + 9]))
    ensures forall m :: m in Accepted(s, CusipPattern, isCusip, 0) ==> m.start != i
  {
    var ms := Accepted(s, CusipPattern, isCusip, 0);
    assert |CusipPattern| == 9;
    forall m | m in ms
      ensures m.start != i
    {
      var k :| 0 <= k < |ms| && ms[k] == m;
      AcceptedSound(s, CusipPattern, isCusip, 0, k);
      assert MatchesAt(s, CusipPattern, m.start);
    }
  }

  /** Every CUSIP token in `s` that `is_cusip` accepts is extracted, as its own text. */
  lemma GetCusipsComplete(s: string, isCusip: string -> bool, i: nat)
    requires MatchesAt(s, CusipPattern, i) && isCusip(s[i..i + 9])
    ensures s[i..i + 9] in GetCusips(s, isCusip)
  {
    AcceptedComplete(s, CusipPattern, isCusip, 0, i);
    FindAndValidateReference(s, CusipPattern, Some(isCusip));
    var ms := Accepted(s, CusipPattern, isCusip, 0);
    var k :| 0 <= k < |ms| && ms[k] == Match(i, s[i..i + 9]);
    assert Groups(ms)[k] == s[i..i + 9];
  }

  // ---------------------------------------------------------------------------
  // find_securities

  /** The keys of `allowed_types`. ABA is not among them. */
  const AllowedTypes: set<string> := {"CUSIP", "ISIN", "SEDOL"}

  /** The default `include` argument. */
  const DefaultInclude: seq<string> := ["CUSIP", "ISIN", "SEDOL"]

  /** `[x.upper() for x in include if x.upper() in allowed_types]` */
  function Requested(kinds: seq<string>): (r: seq<string>)
    ensures forall t :: t in r ==> t in AllowedTypes
  {
    if kinds == [] then []
    else
      var rest := Requested(kinds[1..]);
      var u := Upper(kinds[0]);
      if u in AllowedTypes then [u] + rest else rest
  }

  /** The requested kinds are exactly the upper-cased entries that name a known kind. */
  lemma {:induction false} RequestedSpec(kinds: seq<string>)
    ensures forall t :: t in Requested(kinds) <==> t in AllowedTypes && exists x :: x in kinds && Upper(x) == t
  {
    if kinds != [] {
      RequestedSpec(kinds[1..]);
      assert forall x :: x in kinds <==> x == kinds[0] || x in kinds[1..];
    }
  }

  /** `allowed_types[kind](s)`: the extractor registered for `kind`. */
  function Dispatch(kind: string, s: string, vals: Validators): (r: seq<string>)
    requires kind in AllowedTypes
    ensures forall t :: t in r ==> |t| == (if kind == "ISIN" then 12 else if kind == "SEDOL" then 7 else 9)
    ensures forall t :: t in r ==>
      if kind == "CUSIP" then vals.isCusip(t) else if kind == "ISIN" then vals.isIsin(t) else vals.isSedol(t)
  {
    if kind == "CUSIP" then GetCusips(s, vals.isCusip)
    else if kind == "ISIN" then GetIsins(s, vals.isIsin)
    else GetSedols(s, vals.isSedol)
  }

  /** The failure `find_securities` reports when no requested kind is recognised. */
  datatype DispatchError = NoKnownKind

  /**
   * `find_securities(s, include)`: a map from each requested kind to its extractor
   * applied to `s`; an AssertionError when no kind is requested.
   */
  function FindSecurities(s: string, kinds: seq<string> := DefaultInclude, vals: Validators)
    : (r: Result<map<string, seq<string>>, DispatchError>)
    ensures r.Success? <==> Requested(kinds) != []
    ensures r.Success? ==> forall k :: k in r.value <==> k in Requested(kinds)
    ensures r.Success? ==> forall k :: k in r.value ==> k in AllowedTypes && r.value[k] == Dispatch(k, s, vals)
    ensures r.Failure? ==> r.error == NoKnownKind
  {
    var wanted := Requested(kinds);
    if |wanted| == 0 then
      Failure(NoKnownKind)
    else
      Success(map k | k in wanted :: Dispatch(k, s, vals))
  }

  /**
   * `find_securities` succeeds exactly when some entry of `include`, upper-cased,
   * names CUSIP, ISIN or SEDOL; its keys are then exactly those names, duplicates
   * collapsed, and each maps to what that kind's extractor returns on its own.
   */
  lemma FindSecuritiesSpec(s: string, kinds: seq<string>, vals: Validators)
    ensures var r := FindSecurities(s, kinds, vals);
      && (r.Success? <==> exists x :: x in kinds && Upper(x) in AllowedTypes)
      && (r.Success? ==>
            && (forall k :: k in r.value <==> k in AllowedTypes && exists x :: x in kinds && Upper(x) == k)
            && ("CUSIP" in r.value ==> r.value["CUSIP"] == GetCusips(s, vals.isCusip))
            && ("ISIN" in r.value ==> r.value["ISIN"] == GetIsins(s, vals.isIsin))
            && ("SEDOL" in r.value ==> r.value["SEDOL"] == GetSedols(s, vals.isSedol)))
  {
    RequestedSpec(kinds);
    var wanted := Requested(kinds);
    if exists x :: x in kinds && Upper(x) in AllowedTypes {
      var x :| x in kinds && Upper(x) in AllowedTypes;
      assert Upper(x) in wanted;
    }
    if wanted != [] {
      assert wanted[0] in wanted;
    }
    assert Dispatch("CUSIP", s, vals) == GetCusips(s, vals.isCusip);
    assert Dispatch("ISIN", s, vals) == GetIsins(s, vals.isIsin);
    assert Dispatch("SEDOL", s, vals) == GetSedols(s, vals.isSedol);
  }

  /** ABA routing numbers are never dispatched: "ABA" is never a key. */
  lemma AbaNeverDispatched(s: string, kinds: seq<string>, vals: Validators)
    requires FindSecurities(s, kinds, vals).Success?
    ensures "ABA" !in FindSecurities(s, kinds, vals).value
  {
  }

  /** An `include` with no recognised kind fails, for instance `["bogus"]` or `["ABA"]`. */
  lemma FindSecuritiesRejects(s: string, vals: Validators)
    ensures FindSecurities(s, ["bogus"], vals) == Failure(NoKnownKind)
    ensures FindSecurities(s, ["ABA"], vals) == Failure(NoKnownKind)
  {
    assert Upper("bogus") == "BOGUS";
    assert Upper("ABA") == "ABA";
    assert ["bogus"][1..] == [] && ["ABA"][1..] == [];
  }

  /** Entries are matched case-insensitively and duplicates collapse into one key. */
  lemma FindSecuritiesDuplicates(s: string, vals: Validators)
    ensures FindSecurities(s, ["cusip", "CUSIP", "Cusip"], vals).Success?
    ensures FindSecurities(s, ["cusip", "CUSIP", "Cusip"], vals).value.Keys == {"CUSIP"}
  {
    var kinds := ["cusip", "CUSIP", "Cusip"];
    assert Upper("cusip") == "CUSIP" && Upper("CUSIP") == "CUSIP" && Upper("Cusip") == "CUSIP";
    assert kinds[1..] == ["CUSIP", "Cusip"] && kinds[1..][1..] == ["Cusip"] && kinds[1..][1..][1..] == [];
    var wanted := Requested(kinds);
    assert wanted == ["CUSIP", "CUSIP", "CUSIP"];
    var m := FindSecurities(s, kinds, vals).value;
    assert m.Keys == {"CUSIP"};
  }

  /** Every default entry is recognised as it stands. */
  lemma RequestedDefault()
    ensures Requested(DefaultInclude) == DefaultInclude
  {
    var kinds := DefaultInclude;
    assert Upper("CUSIP") == "CUSIP" && Upper("ISIN") == "ISIN" && Upper("SEDOL") == "SEDOL";
    assert kinds[1..] == ["ISIN", "SEDOL"] && kinds[1..][1..] == ["SEDOL"] && kinds[1..][1..][1..] == [];
  }

  /** The default `include` yields all three kinds, each mapped to its extractor's result. */
  lemma FindSecuritiesDefault(s: string, vals: Validators)
    ensures FindSecurities(s, vals := vals).Success?
    ensures FindSecurities(s, vals := vals).value.Keys == AllowedTypes
  {
    RequestedDefault();
    var m := FindSecurities(s, vals := vals).value;
    assert forall k :: k in m <==> k in DefaultInclude;
    assert forall k :: k in DefaultInclude <==> k in AllowedTypes;
  }
}
