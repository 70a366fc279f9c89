/** The field values a table row carries, the `<` comparison the sort
    comparator applies to them, and the `String(...)` conversion the row key
    applies to them.

    Only numbers (as integers) and strings are modelled, plus `undefined` for
    a field the row does not have. JavaScript's `<` between a number and a
    string, or involving `undefined`, is modelled as "not less" either way. */
module Values {

  datatype Value = Int(i: int) | Str(s: string) | Undefined

  /** `a < b` on two strings: lexicographic, character by character, a
      proper prefix being smaller. */
  predicate StrLess(a: string, b: string)
    decreases |a|
  {
    if |a| == 0 then |b| > 0
    else if |b| == 0 then false
    else if a[0] != b[0] then a[0] < b[0]
    else StrLess(a[1..], b[1..])
  }

  /** `a < b` on two field values. */
  predicate Less(a: Value, b: Value)
  {
    match (a, b)
    case (Int(x), Int(y)) => x < y
    case (Str(x), Str(y)) => StrLess(x, y)
    case _ => false
  }

  /** Both values are numbers, both strings, or both `undefined`: the case in
      which `<` is a total order on them. */
  predicate SameKind(a: Value, b: Value)
  {
    (a.Int? && b.Int?) || (a.Str? && b.Str?) || (a.Undefined? && b.Undefined?)
  }

  lemma {:induction false} StrLessIrreflexive(a: string)
    ensures !StrLess(a, a)
    decreases |a|
  {
    if |a| > 0 {
      StrLessIrreflexive(a[1..]);
    }
  }

  lemma {:induction false} StrLessTransitive(a: string, b: string, c: string)
    requires StrLess(a, b) && StrLess(b, c)
    ensures StrLess(a, c)
    decreases |a|
  {
    if |a| > 0 && a[0] == b[0] && b[0] == c[0] {
      StrLessTransitive(a[1..], b[1..], c[1..]);
    }
  }

  lemma {:induction false} StrLessTotal(a: string, b: string)
    requires a != b
    ensures StrLess(a, b) || StrLess(b, a)
    decreases |a|
  {
    if |a| > 0 && |b| > 0 && a[0] == b[0] {
      assert a == [a[0]] + a[1..] && b == [b[0]] + b[1..];
      StrLessTotal(a[1..], b[1..]);
    }
  }

  /** `<` on field values is a strict order: irreflexive and transitive. */
  lemma LessIsStrictOrder(a: Value, b: Value, c: Value)
    ensures !Less(a, a)
    ensures Less(a, b) && Less(b, c) ==> Less(a, c)
  {
    if a.Str? {
      StrLessIrreflexive(a.s);
      if b.Str? && c.Str? && Less(a, b) && Less(b, c) {
        StrLessTransitive(a.s, b.s, c.s);
      }
    }
  }

  /** On values of the same kind, `<` is total: two different values are
      ordered one way or the other. */
  lemma LessTotalOnSameKind(a: Value, b: Value)
    requires SameKind(a, b) && a != b
    ensures Less(a, b) || Less(b, a)
  {
    if a.Str? {
      StrLessTotal(a.s, b.s);
    }
  }

  // ---------------------------------------------------------------------
  // `String(v)`: decimal rendering of numbers

  function DigitChar(d: nat): (c: char)
    requires d < 10
    ensures '0' <= c <= '9'
  {
    ('0' as int + d) as char
  }

  predicate AllDigits(s: string)
  {
    forall i :: 0 <= i < |s| ==> '0' <= s[i] <= '9'
  }

  /** The decimal digits of `n`, most significant first, without leading zeros. */
  function NatToString(n: nat): (s: string)
    ensures |s| > 0 && AllDigits(s)
    ensures |s| > 1 ==> s[0] != '0'
    decreases n
  {
    if n < 10 then [DigitChar(n)] else NatToString(n / 10) + [DigitChar(n % 10)]
  }

  /** Reads a string of decimal digits back as the number it denotes. */
  function ParseDigits(s: string): nat
    requires AllDigits(s)
  {
    if |s| == 0 then 0
    else ParseDigits(s[..|s| - 1]) * 10 + (s[|s| - 1] as int - '0' as int)
  }

  lemma {:induction false} ParseNatToString(n: nat)
    ensures ParseDigits(NatToString(n)) == n
    decreases n
  {
    var s := NatToString(n);
    if n >= 10 {
      assert s[..|s| - 1] == NatToString(n / 10);
      ParseNatToString(n / 10);
    }
  }

  /** `String(n)` of a number with no fraction. */
  function IntToString(i: int): (s: string)
    ensures |s| > 0
    ensures i < 0 <==> s[0] == '-'
  {
    if i < 0 then "-" + NatToString(-i) else NatToString(i)
  }

  lemma NatToStringInjective(m: nat, n: nat)
    requires NatToString(m) == NatToString(n)
    ensures m == n
  {
    ParseNatToString(m);
    ParseNatToString(n);
  }

  /** Different numbers render as different strings. */
  lemma IntToStringInjective(i: int, j: int)
    requires IntToString(i) == IntToString(j)
    ensures i == j
  {
    if i < 0 {
      assert j < 0;
      assert ("-" + NatToString(-i))[1..] == NatToString(-i);
      assert ("-" + NatToString(-j))[1..] == NatToString(-j);
      NatToStringInjective(-i, -j);
    } else {
      assert j >= 0;
      NatToStringInjective(i, j);
    }
  }

  /** `String(v)` for a field value. */
  function Stringify(v: Value): string
  {
    match v
    case Int(i) => IntToString(i)
    case Str(s) => s
    case Undefined => "undefined"
  }
}
