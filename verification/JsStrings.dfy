/** JavaScript strings and the few string operations the application uses.

    A JavaScript string is modelled as a sequence of characters: `length`,
    `substring`, `includes` and `split` count and compare characters. */
module JsStrings {

  type JsString = string

  datatype Option<+T> = None | Some(value: T)

  const DOT: char := '.'

  /** `toLowerCase` on one character, for the ASCII letters. */
  function LowerChar(c: char): char {
    if 'A' <= c <= 'Z' then (c as int + 0x20) as char else c
  }

  function ToLower(s: JsString): (r: JsString)
    ensures |r| == |s|
    ensures forall i :: 0 <= i < |s| ==> r[i] == LowerChar(s[i])
  {
    seq(|s|, i requires 0 <= i < |s| => LowerChar(s[i]))
  }

  /** `s.includes(t)`: t occurs in s as a contiguous run. */
  predicate Contains(s: JsString, t: JsString)
    decreases |s|
  {
    |t| <= |s| && (s[..|t|] == t || Contains(s[1..], t))
  }

  predicate OccursAt(s: JsString, t: JsString, i: int) {
    0 <= i && i + |t| <= |s| && s[i..i + |t|] == t
  }

  /** `includes` holds exactly when t occurs at some position of s. */
  lemma {:induction false} ContainsOccurs(s: JsString, t: JsString)
    ensures Contains(s, t) <==> exists i :: OccursAt(s, t, i)
  {
    if |t| <= |s| {
      if s[..|t|] == t {
        assert OccursAt(s, t, 0);
      } else {
        ContainsOccurs(s[1..], t);
        if Contains(s[1..], t) {
          var i :| OccursAt(s[1..], t, i);
          assert s[1..][i..i + |t|] == s[i + 1..i + 1 + |t|];
          assert OccursAt(s, t, i + 1);
        } else {
          forall i | OccursAt(s, t, i) ensures i > 0 && OccursAt(s[1..], t, i - 1) {
            assert s[1..][i - 1..i - 1 + |t|] == s[i..i + |t|];
          }
        }
      }
    }
  }

  /** `name.split('.').pop()`: the text after the last dot, or all of it
      when there is no dot. */
  function AfterLastDot(s: JsString): (r: JsString)
    ensures |r| <= |s| && r == s[|s| - |r|..]
    ensures DOT !in r
    ensures |r| == |s| || s[|s| - |r| - 1] == DOT
  {
    if s == [] then []
    else if s[|s| - 1] == DOT then []
    else
      var init := s[..|s| - 1];
      var r := AfterLastDot(init) + [s[|s| - 1]];
      assert init[|init| - (|r| - 1)..] + [s[|s| - 1]] == s[|s| - |r|..];
      r
  }

  /** `parts.join(sep)`. */
  function Join(parts: seq<JsString>, sep: JsString): (r: JsString)
    ensures parts == [] ==> r == []
    ensures |parts| == 1 ==> r == parts[0]
    ensures parts != [] && parts[0] != [] ==> r != []
  {
    if parts == [] then []
    else if |parts| == 1 then parts[0]
    else parts[0] + sep + Join(parts[1..], sep)
  }

  /** Joining one more part appends the separator and that part: with the
      single-part case, this fixes `join` for every number of parts. */
  lemma {:induction false} JoinAppend(parts: seq<JsString>, p: JsString, sep: JsString)
    requires parts != []
    ensures Join(parts + [p], sep) == Join(parts, sep) + sep + p
  {
    if |parts| > 1 {
      assert (parts + [p])[1..] == parts[1..] + [p];
      JoinAppend(parts[1..], p, sep);
    } else {
      assert (parts + [p])[1..] == [p];
    }
  }

  /** The joined text starts with the first part. */
  lemma JoinStartsWithFirst(parts: seq<JsString>, sep: JsString)
    requires parts != []
    ensures parts[0] <= Join(parts, sep)
  {
  }

  predicate IsDigit(c: char) {
    '0' <= c <= '9'
  }

  /** `${n}` for a count: its decimal digits. */
  function Decimal(n: nat): (r: JsString)
    ensures r != []
    ensures forall i :: 0 <= i < |r| ==> IsDigit(r[i])
    ensures |r| > 1 ==> r[0] != '0'
  {
    if n < 10 then [(0x30 + n) as char]
    else Decimal(n / 10) + [(0x30 + n % 10) as char]
  }

  /** The value of a string of decimal digits. */
  function DigitsValue(s: JsString): (v: nat)
    requires forall i :: 0 <= i < |s| ==> IsDigit(s[i])
  {
    if s == [] then 0
    else
      assert IsDigit(s[|s| - 1]);
      10 * DigitsValue(s[..|s| - 1]) + (s[|s| - 1] as int - 0x30)
  }

  lemma {:induction false} DecimalValue(n: nat)
    ensures DigitsValue(Decimal(n)) == n
  {
    if n >= 10 {
      DecimalValue(n / 10);
      var d := Decimal(n);
      assert d[..|d| - 1] == Decimal(n / 10);
    }
  }

  /** Distinct elements in the order of their first occurrence: what
      iterating a JavaScript `Set` filled from `xs` gives. */
  function FirstSeen(xs: seq<JsString>): seq<JsString> {
    if xs == [] then []
    else
      var prev := FirstSeen(xs[..|xs| - 1]);
      var x := xs[|xs| - 1];
      if x in prev then prev else prev + [x]
  }

  predicate Distinct(s: seq<JsString>) {
    forall i, j :: 0 <= i < j < |s| ==> s[i] != s[j]
  }

  lemma {:induction false} FirstSeenMembers(xs: seq<JsString>)
    ensures Distinct(FirstSeen(xs))
    ensures forall y :: y in FirstSeen(xs) <==> y in xs
  {
    if xs != [] {
      var init := xs[..|xs| - 1];
      FirstSeenMembers(init);
      assert xs == init + [xs[|xs| - 1]];
    }
  }

  /** The first index at which x occurs in xs. */
  function IndexOf(xs: seq<JsString>, x: JsString): (i: nat)
    requires x in xs
    ensures i < |xs| && xs[i] == x && x !in xs[..i]
  {
    if xs[0] == x then 0 else 1 + IndexOf(xs[1..], x)
  }

  lemma IndexOfPrefix(xs: seq<JsString>, y: JsString, x: JsString)
    requires x in xs
    ensures x in xs + [y] && IndexOf(xs + [y], x) == IndexOf(xs, x)
  {
    if xs[0] != x {
      assert (xs + [y])[1..] == xs[1..] + [y];
      IndexOfPrefix(xs[1..], y, x);
    }
  }

  /** First-seen order: an element listed earlier first occurs earlier. */
  lemma {:induction false} FirstSeenOrder(xs: seq<JsString>)
    ensures forall i, j :: 0 <= i < j < |FirstSeen(xs)| ==>
      FirstSeen(xs)[i] in xs && FirstSeen(xs)[j] in xs &&
      IndexOf(xs, FirstSeen(xs)[i]) < IndexOf(xs, FirstSeen(xs)[j])
  {
    FirstSeenMembers(xs);
    if xs != [] {
      var init := xs[..|xs| - 1];
      var x := xs[|xs| - 1];
      assert xs == init + [x];
      FirstSeenOrder(init);
      FirstSeenMembers(init);
      var prev := FirstSeen(init);
      assert FirstSeen(xs) == if x in prev then prev else prev + [x];
      forall i, j | 0 <= i < j < |FirstSeen(xs)|
        ensures IndexOf(xs, FirstSeen(xs)[i]) < IndexOf(xs, FirstSeen(xs)[j])
      {
        var a, b := FirstSeen(xs)[i], FirstSeen(xs)[j];
        assert a == prev[i] && a in prev;
        assert a in init;
        IndexOfPrefix(init, x, a);
        if j < |prev| {
          assert b == prev[j];
          IndexOfPrefix(init, x, b);
        } else {
          assert b == x && x !in init;
          assert xs[..|init|] == init;
        }
      }
    }
  }
}
