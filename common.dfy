/** Shared vocabulary of the HR controllers: results and HTTP failures,
    request fields as the validator sees them, uploaded files, and the
    filter/count queries every table answers. */
module Common {

  datatype Option<T> = None | Some(value: T)

  /** The failures a controller answers with: a validation failure (422),
      a missing record (404), or an error raised below the controller, by
      the database or by PHP itself (500). */
  datatype Failure = Unprocessable | NotFound | ServerError

  datatype Result<T> = Ok(value: T) | Err(failure: Failure)

  function HttpStatus(f: Failure): (code: int)
    ensures f == Unprocessable <==> code == 422
    ensures f == NotFound <==> code == 404
    ensures f == ServerError <==> code == 500
  {
    match f
    case Unprocessable => 422
    case NotFound => 404
    case ServerError => 500
  }

  /** A request field after the framework has trimmed strings and turned
      empty strings into null: absent, a string, or a JSON number. */
  datatype Input = Absent | Text(s: string) | Number(n: int)

  /** Laravel's `required|string`: a non-empty string. */
  predicate IsRequiredString(i: Input)
  {
    i.Text? && i.s != ""
  }

  /** `required|string|max:n`: the same, at most `n` characters long. */
  predicate IsRequiredStringMax(i: Input, n: nat)
  {
    IsRequiredString(i) && |i.s| <= n
  }

  // ---------------------------------------------------------------------
  // Integers in requests

  predicate IsDigit(c: char)
  {
    '0' <= c <= '9'
  }

  predicate AllDigits(s: string)
  {
    forall i :: 0 <= i < |s| ==> IsDigit(s[i])
  }

  /** The value of a string of decimal digits, most significant first. */
  function DigitsValue(s: string): (n: nat)
    requires AllDigits(s)
  {
    if s == [] then 0
    else 10 * DigitsValue(s[..|s| - 1]) + (s[|s| - 1] as int - '0' as int)
  }

  function Pow10(w: nat): (p: nat)
    ensures p >= 1
  {
    if w == 0 then 1 else 10 * Pow10(w - 1)
  }

  /** `n` written in exactly `w` decimal digits, with leading zeros. */
  function PadDigits(n: nat, w: nat): (s: string)
    ensures |s| == w && AllDigits(s)
  {
    if w == 0 then []
    else PadDigits(n / 10, w - 1) + [(('0' as int) + n % 10) as char]
  }

  lemma {:induction false} PadDigitsValue(n: nat, w: nat)
    requires n < Pow10(w)
    ensures DigitsValue(PadDigits(n, w)) == n
  {
    if w > 0 {
      var s := PadDigits(n, w);
      var init := PadDigits(n / 10, w - 1);
      assert s[..|s| - 1] == init;
      assert s[|s| - 1] as int - '0' as int == n % 10;
      DivTenBelow(n, Pow10(w - 1));
      PadDigitsValue(n / 10, w - 1);
      DivModTen(n);
    }
  }

  lemma DivTenBelow(n: nat, p: nat)
    requires n < 10 * p
    ensures n / 10 < p
  {
  }

  lemma DivModTen(n: nat)
    ensures n == 10 * (n / 10) + n % 10
  {
  }

  lemma {:induction false} DigitsValueBound(s: string)
    requires AllDigits(s)
    ensures DigitsValue(s) < Pow10(|s|)
  {
    if s != [] {
      DigitsValueBound(s[..|s| - 1]);
    }
  }

  lemma {:induction false} PadDigitsOfValue(s: string)
    requires AllDigits(s)
    ensures PadDigits(DigitsValue(s), |s|) == s
  {
    if s != [] {
      var init := s[..|s| - 1];
      var d := s[|s| - 1] as int - '0' as int;
      var n := DigitsValue(s);
      assert n / 10 == DigitsValue(init) && n % 10 == d;
      PadDigitsOfValue(init);
      assert s == init + [s[|s| - 1]];
    }
  }

  /** A decimal integer literal: an optional sign and at least one digit. */
  function ParseInteger(s: string): (r: Option<int>)
  {
    if |s| >= 2 && s[0] == '-' && AllDigits(s[1..]) then Some(-(DigitsValue(s[1..]) as int))
    else if |s| >= 2 && s[0] == '+' && AllDigits(s[1..]) then Some(DigitsValue(s[1..]))
    else if |s| >= 1 && AllDigits(s) then Some(DigitsValue(s))
    else None
  }

  /** What the `numeric` rule admits, restricted to integers: a number, or
      a string holding an integer literal. */
  function NumericValue(i: Input): (r: Option<int>)
    ensures i.Absent? ==> r.None?
    ensures i.Number? ==> r == Some(i.n)
  {
    match i
    case Absent => None
    case Number(n) => Some(n)
    case Text(s) => ParseInteger(s)
  }

  /** PHP's integers are 64-bit signed. */
  const PhpIntMin: int := -0x8000_0000_0000_0000
  const PhpIntMax: int := 0x7FFF_FFFF_FFFF_FFFF

  /** What the `integer` rule admits: as `numeric`, but a literal may not
      carry a leading zero, and the value must be a PHP integer (PHP's
      FILTER_VALIDATE_INT). */
  function IntegerValue(i: Input): (r: Option<int>)
    ensures r.Some? ==> NumericValue(i) == r && PhpIntMin <= r.value <= PhpIntMax
    ensures i.Number? ==> (r.Some? <==> PhpIntMin <= i.n <= PhpIntMax)
  {
    var v := match i
      case Absent => None
      case Number(n) => Some(n)
      case Text(s) =>
        var digits := if |s| > 0 && (s[0] == '-' || s[0] == '+') then s[1..] else s;
        if |digits| > 1 && digits[0] == '0' then None else ParseInteger(s);
    if v.Some? && PhpIntMin <= v.value <= PhpIntMax then v else None
  }

  /** Decimal notation of a non-negative integer, without leading zeros. */
  function DecimalText(n: nat): (s: string)
    ensures |s| >= 1 && AllDigits(s) && DigitsValue(s) == n
  {
    if n < 10 then
      var s := [(('0' as int) + n) as char];
      assert DigitsValue(s) == 10 * DigitsValue([]) + n;
      s
    else
      var t := DecimalText(n / 10);
      var s := t + [(('0' as int) + n % 10) as char];
      assert s[..|s| - 1] == t;
      s
  }

  /** Numbers sent as strings are read back exactly. */
  lemma NumericValueOfText(n: nat)
    ensures NumericValue(Text(DecimalText(n))) == Some(n)
    ensures NumericValue(Text("-" + DecimalText(n))) == Some(-(n as int))
  {
    var t := DecimalText(n);
    assert ("-" + t)[1..] == t;
  }

  // ---------------------------------------------------------------------
  // The largest value of an unsignedBigInteger column

  const MaxUnsignedBigInt: int := 0x1_0000_0000_0000_0000 - 1

  predicate FitsUnsignedBigInt(n: int)
  {
    0 <= n <= MaxUnsignedBigInt
  }

  // ---------------------------------------------------------------------
  // Uploaded files

  datatype FileKind = Jpeg | Png | Gif | Bmp | Svg | Webp | Other

  /** An uploaded file as the validator sees it: its detected type and its
      size in bytes. Its contents and where it is stored are not modelled. */
  datatype Upload = Upload(kind: FileKind, bytes: nat)

  /** The `image` rule: one of the image types Laravel recognises. */
  predicate IsImage(u: Upload)
  {
    u.kind != Other
  }

  /** The `max:2048` rule on a file: at most 2048 kilobytes. */
  predicate AtMost2048Kilobytes(u: Upload)
  {
    u.bytes <= 2048 * 1024
  }

  /** `required|image|max:2048`. */
  predicate IsRequiredImage(u: Option<Upload>)
  {
    u.Some? && IsImage(u.value) && AtMost2048Kilobytes(u.value)
  }

  // ---------------------------------------------------------------------
  // Queries: `where(...)->get()` and `where(...)->count()`

  /** The rows of `s` satisfying `p`, in table order. */
  function Filter<T>(s: seq<T>, p: T -> bool): (r: seq<T>)
    ensures |r| <= |s|
    ensures forall i :: 0 <= i < |r| ==> r[i] in s && p(r[i])
    ensures forall i :: 0 <= i < |s| && p(s[i]) ==> s[i] in r
    ensures multiset(r) <= multiset(s)
  {
    if s == [] then []
    else
      assert s == [s[0]] + s[1..];
      if p(s[0]) then [s[0]] + Filter(s[1..], p) else Filter(s[1..], p)
  }

  /** How many rows of `s` satisfy `p`. */
  function Count<T>(s: seq<T>, p: T -> bool): (n: nat)
    ensures n <= |s|
  {
    if s == [] then 0
    else (if p(s[0]) then 1 else 0) + Count(s[1..], p)
  }

  /** The count query agrees with the size of the listing. */
  lemma {:induction false} CountIsFilterLength<T>(s: seq<T>, p: T -> bool)
    ensures Count(s, p) == |Filter(s, p)|
  {
    if s != [] {
      CountIsFilterLength(s[1..], p);
    }
  }

  /** A count is zero exactly when no row matches. */
  lemma {:induction false} CountZeroIff<T>(s: seq<T>, p: T -> bool)
    ensures Count(s, p) == 0 <==> forall i :: 0 <= i < |s| ==> !p(s[i])
  {
    if s != [] {
      CountZeroIff(s[1..], p);
      assert forall i :: 1 <= i < |s| ==> s[i] == s[1..][i - 1];
    }
  }

  lemma {:induction false} FilterAppend<T>(s: seq<T>, t: seq<T>, p: T -> bool)
    ensures Filter(s + t, p) == Filter(s, p) + Filter(t, p)
  {
    if s == [] {
      assert s + t == t;
    } else {
      assert (s + t)[1..] == s[1..] + t;
      FilterAppend(s[1..], t, p);
    }
  }

  lemma CountAppend<T>(s: seq<T>, t: seq<T>, p: T -> bool)
    ensures Count(s + t, p) == Count(s, p) + Count(t, p)
  {
    CountIsFilterLength(s + t, p);
    CountIsFilterLength(s, p);
    CountIsFilterLength(t, p);
    FilterAppend(s, t, p);
  }

  /** A query every row satisfies answers the whole table. */
  lemma {:induction false} FilterAll<T>(s: seq<T>, p: T -> bool)
    requires forall i :: 0 <= i < |s| ==> p(s[i])
    ensures Filter(s, p) == s
  {
    if s != [] {
      FilterAll(s[1..], p);
    }
  }

  /** A query that every row but the one at `k` satisfies answers the
      table without that row. */
  lemma FilterDropsOne<T>(s: seq<T>, p: T -> bool, k: nat)
    requires k < |s| && !p(s[k])
    requires forall i :: 0 <= i < |s| && i != k ==> p(s[i])
    ensures Filter(s, p) == s[..k] + s[k + 1..]
  {
    var before := s[..k];
    var after := s[k + 1..];
    assert s == (before + [s[k]]) + after;
    forall i | 0 <= i < |before| ensures p(before[i]) {
      assert before[i] == s[i];
    }
    forall i | 0 <= i < |after| ensures p(after[i]) {
      assert after[i] == s[k + 1 + i];
    }
    FilterAll(before, p);
    FilterAll(after, p);
    assert Filter([s[k]], p) == [] by {
      assert [s[k]][1..] == [];
    }
    FilterAppend(before + [s[k]], after, p);
    FilterAppend(before, [s[k]], p);
    assert before + [] == before;
  }

  /** Leading rows that fail the query do not reach its answer. */
  lemma {:induction false} FilterSkipsPrefix<T>(s: seq<T>, p: T -> bool, k: nat)
    requires k <= |s|
    requires forall i :: 0 <= i < k ==> !p(s[i])
    ensures Filter(s, p) == Filter(s[k..], p)
  {
    if k > 0 {
      assert s[1..][k - 1..] == s[k..];
      FilterSkipsPrefix(s[1..], p, k - 1);
    }
  }

  /** `R` holds of every pair of rows in table order. */
  predicate Pairwise<T>(s: seq<T>, R: (T, T) -> bool)
  {
    forall i, j :: 0 <= i < j < |s| ==> R(s[i], s[j])
  }

  /** Deleting rows keeps every pairwise property of the rest. */
  lemma {:induction false} FilterPairwise<T>(s: seq<T>, p: T -> bool, R: (T, T) -> bool)
    requires Pairwise(s, R)
    ensures Pairwise(Filter(s, p), R)
  {
    if s != [] {
      FilterPairwise(s[1..], p, R);
      var rest := Filter(s[1..], p);
      if p(s[0]) {
        var r := [s[0]] + rest;
        forall i, j | 0 <= i < j < |r| ensures R(r[i], r[j]) {
          if i == 0 {
            var k :| 0 <= k < |s[1..]| && s[1..][k] == r[j];
            assert s[k + 1] == r[j];
          } else {
            assert r[i] == rest[i - 1] && r[j] == rest[j - 1];
          }
        }
      }
    }
  }
}
