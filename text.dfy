/**
 * Character and string helpers: ASCII digits, Python's `int()` on a digit
 * run, `str()` of an integer, `",".join(...)` and `s.split(",")`, and
 * `re.sub` deleting one character or every non-digit.
 */
module Text {
  import opened Wrappers

  predicate IsDigit(c: char) { '0' <= c <= '9' }

  predicate AllDigits(s: string) { forall i :: 0 <= i < |s| ==> IsDigit(s[i]) }

  function DigitChar(d: nat): (c: char)
    requires d < 10
    ensures IsDigit(c) && c as int - '0' as int == d
  {
    ('0' as int + d) as char
  }

  /** `int(s)` for a string of ASCII digits: its decimal value. */
  function DecimalValue(s: string): nat
    requires AllDigits(s)
    decreases |s|
  {
    if s == [] then 0
    else 10 * DecimalValue(s[..|s| - 1]) + (s[|s| - 1] as int - '0' as int)
  }

  /** `str(n)` for a natural number: decimal digits, no leading zero. */
  function NatText(n: nat): (s: string)
    ensures 1 <= |s| && AllDigits(s)
    ensures s[0] == '0' ==> n == 0
    decreases n
  {
    (if n < 10 then [] else NatText(n / 10)) + [DigitChar(n % 10)]
  }

  /** `str(i)` for an integer: a minus sign before the digits of a negative value. */
  function IntText(i: int): (s: string)
    ensures 1 <= |s| && (IsDigit(s[0]) || s[0] == '-')
  {
    if i < 0 then "-" + NatText(-i) else NatText(i)
  }

  /** Reads back what `IntText` writes: an optional minus sign, then at least one digit. */
  function ReadInt(s: string): (r: Option<int>)
    ensures r.Some? ==> 1 <= |s|
  {
    if |s| >= 2 && s[0] == '-' && AllDigits(s[1..]) then Some(-(DecimalValue(s[1..]) as int))
    else if |s| >= 1 && AllDigits(s) then Some(DecimalValue(s) as int)
    else None
  }

  lemma {:induction false} NatTextValue(n: nat)
    ensures DecimalValue(NatText(n)) == n
    decreases n
  {
    var s := NatText(n);
    var prefix := if n < 10 then [] else NatText(n / 10);
    assert s == prefix + [DigitChar(n % 10)];
    assert s[..|s| - 1] == prefix;
    if n >= 10 {
      NatTextValue(n / 10);
    }
    assert DecimalValue(s) == 10 * DecimalValue(prefix) + n % 10;
  }

  /** Reading back the text of any integer gives that integer. */
  lemma IntTextRoundTrip(i: int)
    ensures ReadInt(IntText(i)) == Some(i)
  {
    if i < 0 {
      NatTextValue(-i);
      ReadNegative(NatText(-i));
      assert IntText(i) == "-" + NatText(-i);
    } else {
      NatTextValue(i);
      ReadDigits(NatText(i));
      assert IntText(i) == NatText(i);
    }
  }

  /** A run of digits reads as its decimal value. */
  lemma ReadDigits(s: string)
    requires |s| >= 1 && AllDigits(s)
    ensures ReadInt(s) == Some(DecimalValue(s) as int)
  {
    assert IsDigit(s[0]);
  }

  /** A minus sign before a run of digits reads as the negated value. */
  lemma ReadNegative(digits: string)
    requires |digits| >= 1 && AllDigits(digits)
    ensures ReadInt("-" + digits) == Some(-(DecimalValue(digits) as int))
  {
    var s := "-" + digits;
    assert s[0] == '-' && s[1..] == digits;
  }

  /** `sep.join(fields)`. */
  function Join(sep: char, fields: seq<string>): string
    decreases |fields|
  {
    if |fields| == 0 then ""
    else if |fields| == 1 then fields[0]
    else fields[0] + [sep] + Join(sep, fields[1..])
  }

  /** `s.split(sep)` with an explicit one-character separator: always at least one field. */
  function Split(sep: char, s: string): (r: seq<string>)
    ensures |r| >= 1
    decreases |s|
  {
    if s == [] then [""]
    else
      var rest := Split(sep, s[1..]);
      if s[0] == sep then [""] + rest else [[s[0]] + rest[0]] + rest[1..]
  }

  lemma Associative(x: string, y: string, z: string)
    ensures x + y + z == x + (y + z)
  {
  }

  /** Joining a field in front of at least one more: the field, the separator, the join of the rest. */
  lemma JoinCons(sep: char, x: string, rest: seq<string>)
    requires |rest| >= 1
    ensures Join(sep, [x] + rest) == x + [sep] + Join(sep, rest)
  {
    assert ([x] + rest)[1..] == rest;
  }

  /** A field that holds the separator joins to the same text as its two halves. */
  lemma JoinMerge(sep: char, a: string, b: string, rest: seq<string>)
    requires |rest| >= 1
    ensures Join(sep, [a + [sep] + b] + rest) == Join(sep, [a, b] + rest)
  {
    var j := Join(sep, rest);
    JoinCons(sep, a + [sep] + b, rest);
    JoinCons(sep, b, rest);
    assert [a, b] + rest == [a] + ([b] + rest);
    JoinCons(sep, a, [b] + rest);
    var p := a + [sep];
    Associative(p, b, [sep]);
    Associative(p, b + [sep], j);
  }

  /** Splitting `a + [sep] + b`, where `a` has no separator, yields `a` and then the fields of `b`. */
  lemma {:induction false} SplitAtFirst(sep: char, a: string, b: string)
    requires sep !in a
    ensures Split(sep, a + [sep] + b) == [a] + Split(sep, b)
    decreases |a|
  {
    if a == [] {
      assert (a + [sep] + b)[1..] == b;
    } else {
      assert (a + [sep] + b)[1..] == a[1..] + [sep] + b;
      SplitAtFirst(sep, a[1..], b);
      assert [a[0]] + a[1..] == a;
    }
  }

  /** A string without the separator is one field. */
  lemma {:induction false} SplitNone(sep: char, a: string)
    requires sep !in a
    ensures Split(sep, a) == [a]
    decreases |a|
  {
    if a != [] {
      SplitNone(sep, a[1..]);
      assert [a[0]] + a[1..] == a;
    }
  }

  /** Splitting a join gives the fields back when no field holds the separator. */
  lemma {:induction false} SplitJoin(sep: char, fields: seq<string>)
    requires |fields| >= 1
    requires forall k :: 0 <= k < |fields| ==> sep !in fields[k]
    ensures Split(sep, Join(sep, fields)) == fields
    decreases |fields|
  {
    if |fields| == 1 {
      SplitNone(sep, fields[0]);
    } else {
      SplitJoin(sep, fields[1..]);
      SplitAtFirst(sep, fields[0], Join(sep, fields[1..]));
    }
  }

  /** Joining the fields of a split gives the text back: the fields partition it at the separators. */
  lemma {:induction false} JoinSplit(sep: char, s: string)
    ensures Join(sep, Split(sep, s)) == s
    decreases |s|
  {
    if s != [] {
      var rest := Split(sep, s[1..]);
      JoinSplit(sep, s[1..]);
      assert [s[0]] + s[1..] == s;
      if s[0] == sep {
        assert Split(sep, s) == [""] + rest;
        JoinCons(sep, "", rest);
      } else {
        assert Split(sep, s) == [[s[0]] + rest[0]] + rest[1..];
        JoinFirst(sep, s[0], rest);
      }
    }
  }

  /** Putting a character in front of the first field puts it in front of the join. */
  lemma JoinFirst(sep: char, c: char, fields: seq<string>)
    requires |fields| >= 1
    ensures Join(sep, [[c] + fields[0]] + fields[1..]) == [c] + Join(sep, fields)
  {
    if |fields| > 1 {
      JoinCons(sep, fields[0], fields[1..]);
      assert fields == [fields[0]] + fields[1..];
      JoinCons(sep, [c] + fields[0], fields[1..]);
    }
  }

  /** A split has one field more than the text has separators. */
  lemma {:induction false} SplitCount(sep: char, s: string)
    ensures |Split(sep, s)| == multiset(s)[sep] + 1
    decreases |s|
  {
    if s != [] {
      SplitCount(sep, s[1..]);
      assert s == [s[0]] + s[1..];
      assert multiset(s) == multiset([s[0]]) + multiset(s[1..]);
    }
  }

  /** A character other than the separator that no field holds is not in their join. */
  lemma {:induction false} JoinAvoids(sep: char, fields: seq<string>, c: char)
    requires c != sep && forall k :: 0 <= k < |fields| ==> c !in fields[k]
    ensures c !in Join(sep, fields)
    decreases |fields|
  {
    if |fields| > 1 {
      JoinAvoids(sep, fields[1..], c);
    }
  }

  /** `re.sub(c, "", s)` for a one-character pattern: `s` without any `c`. */
  function Without(s: string, c: char): (r: string)
    ensures c !in r
    ensures forall x :: x in r ==> x in s
    ensures |r| <= |s|
    decreases |s|
  {
    if s == [] then []
    else (if s[0] == c then [] else [s[0]]) + Without(s[1..], c)
  }

  /** `re.sub(r"[^0-9]", "", s)`: the digits of `s` in order. */
  function KeepDigits(s: string): (r: string)
    ensures AllDigits(r)
    decreases |s|
  {
    if s == [] then []
    else (if IsDigit(s[0]) then [s[0]] else []) + KeepDigits(s[1..])
  }

  lemma {:induction false} WithoutAppend(a: string, b: string, c: char)
    ensures Without(a + b, c) == Without(a, c) + Without(b, c)
    decreases |a|
  {
    if a != [] {
      assert (a + b)[1..] == a[1..] + b;
      WithoutAppend(a[1..], b, c);
    } else {
      assert a + b == b;
    }
  }

  lemma {:induction false} WithoutAbsent(a: string, c: char)
    requires c !in a
    ensures Without(a, c) == a
    decreases |a|
  {
    if a != [] {
      WithoutAbsent(a[1..], c);
      assert [a[0]] + a[1..] == a;
    }
  }

  lemma {:induction false} KeepDigitsAppend(a: string, b: string)
    ensures KeepDigits(a + b) == KeepDigits(a) + KeepDigits(b)
    decreases |a|
  {
    if a != [] {
      assert (a + b)[1..] == a[1..] + b;
      KeepDigitsAppend(a[1..], b);
    } else {
      assert a + b == b;
    }
  }

  /** Stripping non-digits leaves a digit string unchanged and deletes a digit-free one. */
  lemma {:induction false} KeepDigitsOf(a: string)
    ensures AllDigits(a) ==> KeepDigits(a) == a
    ensures (forall i :: 0 <= i < |a| ==> !IsDigit(a[i])) ==> KeepDigits(a) == []
    decreases |a|
  {
    if a != [] {
      KeepDigitsOf(a[1..]);
      assert [a[0]] + a[1..] == a;
    }
  }
}
