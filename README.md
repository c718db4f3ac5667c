# fincheck extraction core in Dafny

fincheck finds financial security identifiers (CUSIP, ISIN, SEDOL and ABA
routing numbers) in free text. Each extractor scans the text with a fixed
token pattern and keeps the tokens that the kind's checksum validator accepts.
`find_securities` runs the extractors for the requested kinds and collects
their results in a dictionary. This project models the extractors and the
helpers in `utils.py` they rely on, as pure Dafny functions, and proves what
they return.

Modules:

- `Wrappers`: `Option` and `Result`. A Python exception becomes a `Failure`
  that carries its cause.
- `Chars`: ASCII versions of `str.isnumeric`, `\d`, `\w`, `[A-Za-z]` and
  `str.upper`.
- `Seqs`: `Keep`, order-preserving filtering. `keep_numeric`, the space
  removal in `ensure_format` and the validator filter in `find_and_validate`
  are all this one operation.
- `Scan`: the shared token shape `((?<=[^\w])|(?<=^))BODY(?=[^\w]|$)`.
  - A pattern is the sequence of its body's character classes.
  - `MatchesAt` is the body plus both word boundaries.
  - `Finditer` is `re.finditer` for such a pattern: a left-to-right scan that
    resumes after each match. That is all of `re.finditer`'s stepping for a
    non-empty, fixed-length body between word boundaries.
  - `Accepted` is the reference definition: every matching position that the
    validator admits, in ascending order.
  - `FinditerComplete` proves that the two agree once filtered. This relies on
    matches of one pattern never overlapping (`MatchesDisjoint`).
- `Utils`: `keep_numeric`, `convert_to_n` in both of its forms, `ensure_format`,
  `split_payload` and `find_and_validate`.
- `Extract`: `get_cusips`, `get_isins`, `get_sedols`, `get_abas` and
  `find_securities`.
  - The checksum validators `is_cusip`, `is_isin`, `is_sedol` and `is_aba` live
    in `validate.py`, which is not part of this model. They are passed in as
    arbitrary total predicates (`Validators`), so every property holds whatever the
    validators decide.
  - The parameter `include` is named `kinds`, because `include` is a Dafny keyword.
- Python's default arguments are Dafny default parameter values:
  - `return_str=True`, so `ConvertToN(s)` gives the digit string;
  - `n_chars=None`, `payload_len=None` and `validation_fn=None`;
  - `include=["CUSIP", "ISIN", "SEDOL"]`, which is `FindSecurities(s, vals := vals)`.

## Model

| member | source | states |
|---|---|---|
| Chars.DigitValue | src/fincheck/utils.py:65 | `int` of one digit character is a value below ten whose character is that digit |
| Chars.UpperChar | src/fincheck/extract.py:82 | upper-casing turns a lower-case letter into its capital, 32 code points lower, and leaves every other character unchanged |
| Chars.Upper | src/fincheck/extract.py:82 | `x.upper()` keeps the length and upper-cases character by character |
| Seqs.Keep | src/fincheck/utils.py:14 | order-preserving filtering, the operation behind `"".join(c for c in s if c.isnumeric())`, `s.replace(" ", "")` (line 47) and the validator filter (line 89): the result is no longer than the input and every kept element passes; its counts and order are stated by KeepCounts and KeepSubseq |
| Seqs.KeepCounts | src/fincheck/utils.py:14 | each element that passes is kept exactly as often as it occurs in the input, and no other element is kept |
| Seqs.KeepSubseq | src/fincheck/utils.py:14 | the kept elements are a subsequence of the input, so their relative order is kept |
| Utils.KeepNumeric | src/fincheck/utils.py:6-14 | the result holds only digits; every digit of the input is kept as often as it occurs and no other character is kept; the result is a subsequence of the input, so order is kept |
| Utils.KeepNumericIdempotent | src/fincheck/utils.py:14 | applying `keep_numeric` twice gives the same result as applying it once |
| Utils.KeepNumericFixpoint | src/fincheck/utils.py:14 | a string is left unchanged exactly when it consists of digits only |
| Utils.KeepNumericAppend | src/fincheck/utils.py:14 | the digits of a concatenation are the concatenation of the digits |
| Utils.FirstIndex | src/fincheck/utils.py:32 | `str.index` returns the first position holding the character, or nothing (a ValueError) when none does |
| Utils.AlphabetIndex | src/fincheck/utils.py:30-32 | `char_idxs.index(c)` is a position below 36 holding `c`; it fails exactly when `c` is neither a digit nor a capital letter |
| Utils.AlphabetIndexValue | src/fincheck/utils.py:30 | a digit sits at its own value; a capital letter sits at ten plus its place in A..Z |
| Utils.AlphabetInjective | src/fincheck/utils.py:30 | no character appears twice in the alphabet |
| Utils.ConvertToIndices | src/fincheck/utils.py:33-34 | the list form succeeds iff every character is a digit or a capital letter; it then has one entry per character, each below 36, and entry i is where `s[i]` sits in the alphabet; otherwise it names an offending character of `s` |
| Utils.ConvertToIndicesInverse | src/fincheck/utils.py:33-34 | reading the list form back through the alphabet gives the input |
| Utils.FromIndicesInverse | src/fincheck/utils.py:33-34 | every list of positions below 36 is the list form of the string those positions spell |
| Utils.ConvertToIndicesInjective | src/fincheck/utils.py:33-34 | two strings with the same successful list form are equal |
| Utils.Decimal | src/fincheck/utils.py:32 | `str(n)` is a non-empty run of digits, one long below 10 and two long below 100 |
| Utils.DecimalRoundTrip | src/fincheck/utils.py:32 | `int(str(n)) == n` |
| Utils.ConvertToDigits | src/fincheck/utils.py:32 | the string form succeeds iff every character is a digit or a capital letter; it then holds only digits; otherwise it fails naming a character of `s` (its exact content is stated by ConvertToDigitsSpec) |
| Utils.JoinDecimals | src/fincheck/utils.py:32 | the joined renderings are all digits |
| Utils.ConvertToDigitsSpec | src/fincheck/utils.py:31-32 | the string form fails on the same inputs and with the same error as the list form; it is the list form rendered in decimal and joined; its length is the input's length plus the number of capital letters |
| Utils.ConvertToDigitsCollision | src/fincheck/utils.py:32 | the string form is not injective: "A" and "10" both become "10" |
| Utils.ConvertToN | src/fincheck/utils.py:17-34 | succeeds iff every character is a digit or a capital letter; `return_str` selects the form and defaults to the string form; the string form is all digits, of length `len(s)` plus the number of letters; the list form maps each position to its character's alphabet index |
| Utils.EnsureFormat | src/fincheck/utils.py:37-50 | succeeds iff `n_chars` is absent, zero, or the length of `s` without spaces; the result holds no space, keeps every other character as often as it occurs and in order; the failure reports the expected and actual lengths |
| Utils.EnsureFormatIdempotent | src/fincheck/utils.py:47-49 | formatting an already formatted string again gives it back unchanged |
| Utils.EnsureFormatUnchecked | src/fincheck/utils.py:48 | with no `n_chars`, or `n_chars` zero, formatting never fails |
| Utils.SplitPayload | src/fincheck/utils.py:53-71 | without `payload_len`: succeeds iff `s` is non-empty and ends in a digit, and then payload + last character == `s` and the check digit is that digit's value; an empty `s` fails with the IndexError and a non-digit last character with the ValueError of `int`; with `len(s) < payload_len` it returns `(s, None)`; every other case fails on the unbound name |
| Utils.FindAndValidate | src/fincheck/utils.py:74-93 | every returned token fits the pattern's body and is admitted by the validator, if one is given |
| Utils.FindAndValidateReference | src/fincheck/utils.py:86-93 | the result equals the texts of the reference list of accepted matches |
| Utils.FindAndValidateSpec | src/fincheck/utils.py:86-93 | the result has one token per accepted match, in order, each the text of a boundary-delimited match that the validator admits; tokens never overlap; every admitted match in `s` is returned |
| Utils.FindAndValidateNoMatch | src/fincheck/utils.py:87-93 | a string with no match yields the empty list |
| Scan.SedolClassLiteral | src/fincheck/extract.py:71 | the SEDOL class, digits or capital consonants, holds exactly the characters of `[0-9BCDFGHJKLMNPQRSTVWXYZ]` |
| Scan.MatchesAt | src/fincheck/extract.py:29 | the token regex at one position (the same shape at lines 52, 71 and 110): a match lies inside `s` and every character of it is a letter, digit or underscore, so a match is one run of `\w` |
| Scan.MatchesDisjoint | src/fincheck/extract.py:29 | two matches of one pattern, boundaries included, never overlap |
| Scan.Finditer | src/fincheck/utils.py:86 | `re.finditer` for a token pattern: tries each position left to right and resumes after a match; what it yields starts at or after its starting point, has the pattern's length, and comes left to right without overlap (FinditerSound and FinditerComplete state the rest) |
| Scan.FinditerSound | src/fincheck/utils.py:86 | every match the scan yields is a genuine boundary-delimited match at or after its starting point |
| Scan.AcceptedSound | src/fincheck/utils.py:86-89 | every entry of the reference is a match that the validator admits |
| Scan.AcceptedComplete | src/fincheck/utils.py:86-89 | every admitted match is an entry of the reference |
| Scan.AcceptedOrdered | src/fincheck/utils.py:86-89 | reference entries come left to right and do not overlap |
| Scan.Groups | src/fincheck/utils.py:89-91 | one text per match, `m.group(0)`, in the matches' order |
| Scan.FinditerComplete | src/fincheck/utils.py:86-91 | filtering what the scan yields by the validator gives exactly the reference list: resuming after each match loses nothing |
| Scan.NoMatchInsideRun | src/fincheck/extract.py:29 | a run of word characters longer than the token holds no match |
| Extract.Repeat | src/fincheck/extract.py:29 | the regex quantifier `{n}`: exactly `n` copies of the class |
| Extract.GetCusips | src/fincheck/extract.py:7-30 | every token has 9 characters: eight letters or digits, then a digit; `is_cusip` accepts it |
| Extract.GetIsins | src/fincheck/extract.py:33-53 | every token has 12 characters: two letters, nine letters or digits, then a digit; `is_isin` accepts it |
| Extract.GetSedols | src/fincheck/extract.py:56-72 | every token has 7 characters: six digits or capital consonants, then a digit; `is_sedol` accepts it |
| Extract.GetAbas | src/fincheck/extract.py:87-111 | every token is 9 digits that `is_aba` accepts |
| Extract.ExtractorsFollowReference | src/fincheck/extract.py:7-111 | each of the four extractors returns the reference list of accepted matches of its own pattern, so `FindAndValidateSpec` applies to each |
| Extract.EmbeddedCusipIgnored | src/fincheck/extract.py:29 | a CUSIP-shaped piece inside a longer run of word characters is never extracted, whatever the validator says |
| Extract.CusipTouchingWordIgnored | src/fincheck/extract.py:29 | nine characters preceded or followed by a letter, digit or underscore are never a CUSIP match at that position, whatever the validator says |
| Extract.GetCusipsComplete | src/fincheck/extract.py:29-30 | every boundary-delimited CUSIP token that `is_cusip` accepts is extracted |
| Extract.Requested | src/fincheck/extract.py:82 | the filtered `include` holds only CUSIP, ISIN and SEDOL |
| Extract.RequestedSpec | src/fincheck/extract.py:82 | a name is in the filtered `include` iff it is an allowed type and the upper-case form of some entry |
| Extract.RequestedDefault | src/fincheck/extract.py:75 | the default `include` passes the filter unchanged |
| Extract.Dispatch | src/fincheck/extract.py:76-80 | `allowed_types[t](s)`: every token has the kind's length (9, 12 or 7) and passes that kind's validator |
| Extract.FindSecurities | src/fincheck/extract.py:75-84 | succeeds iff some kind is requested; the keys are then exactly the requested kinds, each an allowed type mapped to its extractor's result; otherwise fails with the assertion |
| Extract.FindSecuritiesSpec | src/fincheck/extract.py:75-84 | succeeds iff some upper-cased entry names CUSIP, ISIN or SEDOL; the keys are exactly those names; under each key is the matching `get_*` result |
| Extract.AbaNeverDispatched | src/fincheck/extract.py:76-80 | "ABA" is never a key |
| Extract.FindSecuritiesRejects | src/fincheck/extract.py:82-83 | `["bogus"]` and `["ABA"]` both fail |
| Extract.FindSecuritiesDuplicates | src/fincheck/extract.py:82-84 | entries match case-insensitively and duplicates collapse: `["cusip", "CUSIP", "Cusip"]` gives the single key CUSIP |
| Extract.FindSecuritiesDefault | src/fincheck/extract.py:75-84 | called without `include`, it succeeds with the keys CUSIP, ISIN and SEDOL |

## Left out

- `read_csv` (src/fincheck/utils.py:96-107): file I/O through `pkg_resources`.
- `process_substrings` and `process_list` (src/fincheck/extract.py:114-163):
  - they call `typing.Dict` as a constructor;
  - they iterate over an integer;
  - they store the `None` that `list.extend` returns.
  So they fail before producing any result, and their intended behaviour is not determined by the code.
- The checksum validators in `validate.py`: they are not part of this model and are taken as parameters.
- Validators that raise: a validator here is a total predicate. In Python, a validator that raises makes `find_and_validate` raise too (src/fincheck/utils.py:89); that exception is not modelled.
- Patterns in general: `find_and_validate` takes any regex, but the model accepts only a non-empty, fixed-length run of character classes between word boundaries (`Scan.Pattern`). That is the shape of all four patterns in src/fincheck/extract.py. No other regex, and no other part of the `re` engine, is modelled.
- Assertions under `python -O`: the length check of `ensure_format` (src/fincheck/utils.py:49) and the empty-`include` check of `find_securities` (src/fincheck/extract.py:83) are `assert` statements. The model follows the default interpreter mode, where they raise; under `-O` they are stripped, so `ensure_format` never fails and `find_securities` returns an empty dict.
- Key order: `find_securities` returns a Python dict whose keys come in first-occurrence order of the filtered `include`. A Dafny `map` has no order, so the model does not state it; nothing in the source depends on it.
- Python exceptions carry no message here. Each becomes a `Failure` naming its cause: `NotInAlphabet`, `WrongLength`, `EmptyInput`, `NotADigit`, `UndefinedName`, `NoKnownKind`.
- `split_payload` with `payload_len` given and `len(s) >= payload_len` refers to the unbound name `payload`. This always raises a NameError, and the model returns `UndefinedName`. What that branch was meant to compute cannot be recovered from the code, so no corrected version is modelled.
- Unicode: `str.isnumeric`, `\d`, `\w`, `str.upper` and `int` are ASCII-only in this model.
  - Python's versions also accept other scripts' digits and letters.
  - Python's `upper` can lengthen a string (for example "ß" becomes "SS").
- `ensure_format`'s `isinstance(s, str)` check and every other type check: the Dafny types enforce them.
- src/fincheck/extract.py:4 ends its import list with a trailing comma, which is a syntax error in Python. The model describes the module as it would behave once that import is corrected.
- Extract.FindSecuritiesDuplicates: states only the keys of the result. The value under the key comes from `FindSecurities`'s own contract.
- Utils.FindAndValidate: its own contract states only shape and admission. Order, non-overlap and completeness are stated by `FindAndValidateSpec`, through `FindAndValidateReference`.
- Utils.ConvertToN: the digit string's exact content is not stated here. It is stated by `ConvertToDigitsSpec`.
