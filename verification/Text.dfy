/** Success or a named failure: the model's form of Python's exceptions. */
module Outcomes {
  datatype Option<+T> = None | Some(value: T)

  datatype Result<+T, +E> = Ok(value: T) | Err(error: E) {
    predicate IsFailure() {
      Err?
    }

    function PropagateFailure<U>(): Result<U, E>
      requires Err?
    {
      Err(error)
    }

    function Extract(): T
      requires Ok?
    {
      value
    }
  }
}

/** The few Python string operations the scripts rely on. */
module Text {

  /** The characters that `str.strip` removes. */
  predicate IsSpace(c: char) {
    || '\t' <= c <= '\r' || '\U{1C}' <= c <= ' ' || c == '\U{85}' || c == '\U{A0}' || c == '\U{1680}'
    || '\U{2000}' <= c <= '\U{200A}' || c == '\U{2028}' || c == '\U{2029}' || c == '\U{202F}'
    || c == '\U{205F}' || c == '\U{3000}'
  }

  predicate IsLetter(c: char) {
    'a' <= c <= 'z' || 'A' <= c <= 'Z'
  }

  predicate IsDigit(c: char) {
    '0' <= c <= '9'
  }

  /** `not s.strip()` */
  predicate Blank(s: string) {
    forall c | c in s :: IsSpace(c)
  }

  function TrimLeft(s: string): string {
    if s != "" && IsSpace(s[0]) then TrimLeft(s[1..]) else s
  }

  function TrimRight(s: string): string {
    if s != "" && IsSpace(s[|s| - 1]) then TrimRight(s[..|s| - 1]) else s
  }

  /** `s.strip()` */
  function Strip(s: string): string {
    TrimRight(TrimLeft(s))
  }

  lemma {:induction false} TrimRightEnd(s: string)
    ensures TrimRight(s) != "" ==> !IsSpace(TrimRight(s)[|TrimRight(s)| - 1])
  {
    if s != "" && IsSpace(s[|s| - 1]) {
      TrimRightEnd(s[..|s| - 1]);
    }
  }

  lemma StripEnds(s: string)
    ensures Strip(s) != "" ==> !IsSpace(Strip(s)[|Strip(s)| - 1])
  {
    TrimRightEnd(TrimLeft(s));
  }

  /** A text whose ends are no space is its own strip. */
  lemma StripFixed(s: string)
    requires s != "" && !IsSpace(s[0]) && !IsSpace(s[|s| - 1])
    ensures Strip(s) == s
  {
  }

  /** `t` is what is left of `s` when the space at both ends is cut off. */
  ghost predicate IsTrim(s: string, t: string) {
    exists i, j :: TrimAt(s, t, i, j)
  }

  ghost predicate TrimAt(s: string, t: string, i: nat, j: nat) {
    && i <= j <= |s| && t == s[i..j]
    && (forall k | 0 <= k < i || j <= k < |s| :: IsSpace(s[k]))
    && (t == "" || (!IsSpace(t[0]) && !IsSpace(t[|t| - 1])))
  }

  lemma {:induction false} TrimLeftAt(s: string) returns (i: nat)
    ensures i <= |s| && TrimLeft(s) == s[i..] && (forall k | 0 <= k < i :: IsSpace(s[k]))
    ensures TrimLeft(s) == "" || !IsSpace(TrimLeft(s)[0])
  {
    if s != "" && IsSpace(s[0]) {
      var j := TrimLeftAt(s[1..]);
      i := j + 1;
      assert forall k | 0 < k < i :: s[k] == s[1..][k - 1];
    } else {
      i := 0;
    }
  }

  lemma {:induction false} TrimRightAt(s: string) returns (j: nat)
    ensures j <= |s| && TrimRight(s) == s[..j] && (forall k | j <= k < |s| :: IsSpace(s[k]))
    ensures TrimRight(s) == "" || !IsSpace(TrimRight(s)[|TrimRight(s)| - 1])
  {
    if s != "" && IsSpace(s[|s| - 1]) {
      j := TrimRightAt(s[..|s| - 1]);
    } else {
      j := |s|;
    }
  }

  /** `Strip` cuts off exactly the space at both ends. */
  lemma StripIsTrim(s: string)
    ensures IsTrim(s, Strip(s))
  {
    hide TrimLeft, TrimRight, IsSpace;
    var left := TrimLeft(s);
    var i := TrimLeftAt(s);
    var j := TrimRightAt(left);
    assert forall k | i <= k < |s| :: s[k] == left[k - i];
    assert left[..j] == s[i..i + j];
    assert Strip(s) != "" ==> Strip(s)[0] == left[0];
    assert TrimAt(s, Strip(s), i, i + j);
  }

  lemma TrimUnique(s: string, t: string)
    requires IsTrim(s, t)
    ensures t == Strip(s)
  {
    StripIsTrim(s);
    var i, j :| TrimAt(s, t, i, j);
    var a, b :| TrimAt(s, Strip(s), a, b);
    hide Strip;
    OneTrim(s, t, i, j, Strip(s), a, b);
  }

  lemma OneTrim(s: string, t: string, i: nat, j: nat, u: string, a: nat, b: nat)
    requires TrimAt(s, t, i, j) && TrimAt(s, u, a, b)
    ensures t == u
  {
    hide IsSpace;
    if t != "" {
      assert t[0] == s[i] && t[|t| - 1] == s[j - 1];
      assert a <= i && j <= b;
      assert u[0] == s[a] && u[|u| - 1] == s[b - 1];
      assert i == a && j == b;
    }
  }

  const SPACES: set<char> := {
    '\t', '\n', '\U{B}', '\U{C}', '\r', '\U{1C}', '\U{1D}', '\U{1E}', '\U{1F}', ' ', '\U{85}', '\U{A0}', '\U{1680}',
    '\U{2000}', '\U{2001}', '\U{2002}', '\U{2003}', '\U{2004}', '\U{2005}', '\U{2006}', '\U{2007}', '\U{2008}',
    '\U{2009}', '\U{200A}', '\U{2028}', '\U{2029}', '\U{202F}', '\U{205F}', '\U{3000}'}

  lemma AllSpaces(c: char)
    ensures IsSpace(c) <==> c in SPACES
  {
  }

  const UPPER := "ABCDEFGHIJKLMNOPQRSTUVWXYZ"
  const LOWER := "abcdefghijklmnopqrstuvwxyz"

  /** Lower case letter by letter; everything else stays. */
  lemma LowerLetters(s: string, k: nat, n: nat)
    requires k < |s| && n < 26
    ensures s[k] == UPPER[n] ==> Lower(s)[k] == LOWER[n]
    ensures s[k] !in UPPER ==> Lower(s)[k] == s[k]
  {
    var c := s[k];
    assert UPPER[n] == 'A' + n as char && LOWER[n] == 'a' + n as char;
    if 'A' <= c <= 'Z' {
      var m := (c - 'A') as int;
      assert UPPER[m] == c;
    }
  }

  function LowerChar(c: char): char {
    if 'A' <= c <= 'Z' then c - 'A' + 'a' else c
  }

  /** `s.lower()`, on the letters A to Z. */
  function Lower(s: string): (r: string)
    ensures |r| == |s|
  {
    seq(|s|, i requires 0 <= i < |s| => LowerChar(s[i]))
  }

  /** `s.replace(a, b)` for single characters. */
  function Replace(s: string, a: char, b: char): (r: string)
    ensures |r| == |s|
    ensures forall i | 0 <= i < |s| :: s[i] == a ==> r[i] == b
    ensures forall i | 0 <= i < |s| :: s[i] != a ==> r[i] == s[i]
    ensures a != b ==> a !in r
  {
    seq(|s|, i requires 0 <= i < |s| => if s[i] == a then b else s[i])
  }

  /** `s.split(sep)`: never empty. */
  function Split(s: string, sep: char): (parts: seq<string>)
    ensures |parts| > 0
    ensures forall part | part in parts :: sep !in part
  {
    if s == "" then [""]
    else
      var rest := Split(s[1..], sep);
      if s[0] == sep then [""] + rest else [[s[0]] + rest[0]] + rest[1..]
  }

  /** `sep.join(parts)` */
  function Join(parts: seq<string>, sep: char): string {
    if |parts| == 0 then ""
    else if |parts| == 1 then parts[0]
    else parts[0] + [sep] + Join(parts[1..], sep)
  }

  /** A piece of a split text consists of characters of the text. */
  lemma {:induction false} SplitChars(s: string, sep: char, part: string, c: char)
    requires part in Split(s, sep) && c in part
    ensures c in s
  {
    if s != "" {
      var rest := Split(s[1..], sep);
      if s[0] != sep && part == [s[0]] + rest[0] && c != s[0] {
        SplitChars(s[1..], sep, rest[0], c);
      } else if part in rest {
        SplitChars(s[1..], sep, part, c);
      }
    }
  }

  lemma {:induction false} SplitPrefix(head: string, tail: string, sep: char)
    requires sep !in head
    ensures Split(head + [sep] + tail, sep) == [head] + Split(tail, sep)
  {
    var s := head + [sep] + tail;
    if head == "" {
      assert s[1..] == tail;
    } else {
      assert s[1..] == head[1..] + [sep] + tail;
      SplitPrefix(head[1..], tail, sep);
      assert [s[0]] + head[1..] == head;
    }
  }

  lemma {:induction false} SplitWhole(s: string, sep: char)
    requires sep !in s
    ensures Split(s, sep) == [s]
  {
    if s != "" {
      SplitWhole(s[1..], sep);
      assert [s[0]] + s[1..] == s;
    }
  }

  /** Splitting undoes joining. */
  lemma {:induction false} SplitOfJoin(parts: seq<string>, sep: char)
    requires |parts| > 0
    requires forall part | part in parts :: sep !in part
    ensures Split(Join(parts, sep), sep) == parts
  {
    if |parts| == 1 {
      SplitWhole(parts[0], sep);
    } else {
      SplitOfJoin(parts[1..], sep);
      SplitPrefix(parts[0], Join(parts[1..], sep), sep);
    }
  }

  lemma JoinFirst(head: string, rest: seq<string>, sep: char)
    ensures Join([head] + rest, sep) == if rest == [] then head else head + [sep] + Join(rest, sep)
  {
    assert ([head] + rest)[1..] == rest;
  }

  /** And joining undoes splitting: the pieces are the text between the separators. */
  lemma {:induction false} JoinOfSplit(s: string, sep: char)
    ensures Join(Split(s, sep), sep) == s
  {
    if s != "" {
      hide Join;
      var rest := Split(s[1..], sep);
      JoinOfSplit(s[1..], sep);
      JoinFirst("", rest, sep);
      JoinFirst(rest[0], rest[1..], sep);
      JoinFirst([s[0]] + rest[0], rest[1..], sep);
      assert rest == [rest[0]] + rest[1..] && s == [s[0]] + s[1..];
    } else {
      JoinFirst("", [], sep);
    }
  }

  /** Every character of a joined text is a separator or comes from a part. */
  lemma {:induction false} JoinChars(parts: seq<string>, sep: char, c: char)
    requires c in Join(parts, sep)
    ensures c == sep || exists part | part in parts :: c in part
  {
    if |parts| == 0 {
    } else if |parts| == 1 {
      assert parts[0] in parts;
    } else if c in parts[0] {
      assert parts[0] in parts;
    } else if c != sep {
      JoinChars(parts[1..], sep, c);
      var part :| part in parts[1..] && c in part;
      assert part in parts;
    }
  }

  /** `a <= b` on strings: the order of their first difference. */
  predicate AtMost(a: string, b: string) {
    a == "" || (b != "" && (a[0] < b[0] || (a[0] == b[0] && AtMost(a[1..], b[1..]))))
  }

  lemma {:induction false} AtMostTotal(a: string, b: string)
    ensures AtMost(a, b) || AtMost(b, a)
    ensures a == b ==> AtMost(a, b)
  {
    if a != "" && b != "" {
      AtMostTotal(a[1..], b[1..]);
    }
  }

  lemma {:induction false} AtMostTransitive(a: string, b: string, c: string)
    requires AtMost(a, b) && AtMost(b, c)
    ensures AtMost(a, c)
  {
    if a != "" && a[0] == b[0] == c[0] {
      AtMostTransitive(a[1..], b[1..], c[1..]);
    }
  }

  lemma {:induction false} LeastExists(texts: set<string>)
    requires texts != {}
    ensures exists least :: least in texts && forall text | text in texts :: AtMost(least, text)
  {
    var some :| some in texts;
    AtMostTotal(some, some);
    var others := texts - {some};
    if others == {} {
      assert texts == {some};
    } else {
      LeastExists(others);
      var least :| least in others && forall text | text in others :: AtMost(least, text);
      AtMostTotal(some, least);
      var first := if AtMost(some, least) then some else least;
      forall text | text in texts
        ensures AtMost(first, text)
      {
        assert text == some || text in others;
        if first == some && text in others {
          AtMostTransitive(some, least, text);
        }
      }
      assert first in texts;
    }
  }

  /** `sorted(texts)` of distinct texts. */
  ghost predicate IsSorted(order: seq<string>, texts: set<string>) {
    && (forall text :: text in order <==> text in texts)
    && forall i, j | 0 <= i < j < |order| :: order[i] != order[j] && AtMost(order[i], order[j])
  }

  /** `str(n)` for a natural number. */
  function DecimalNat(n: nat): (digits: string)
    ensures digits != ""
    ensures forall c | c in digits :: IsDigit(c)
  {
    var last := '0' + (n % 10) as char;
    if n < 10 then [last] else DecimalNat(n / 10) + [last]
  }

  /** `str(n)` */
  function Decimal(n: int): string {
    if n < 0 then "-" + DecimalNat(-n) else DecimalNat(n)
  }

  /** The number a text of digits stands for. */
  ghost function NumberOf(digits: string): int {
    if digits == "" then 0
    else 10 * NumberOf(digits[..|digits| - 1]) + (digits[|digits| - 1] as int - '0' as int)
  }

  /** `str(n)` is the decimal notation of n, without leading zeros. */
  lemma {:induction false} DecimalNatValue(n: nat)
    ensures NumberOf(DecimalNat(n)) == n
    ensures DecimalNat(n)[0] == '0' ==> n == 0
  {
    var digits := DecimalNat(n);
    if n >= 10 {
      DecimalNatValue(n / 10);
      assert digits[..|digits| - 1] == DecimalNat(n / 10);
      assert digits[0] == DecimalNat(n / 10)[0];
    } else {
      assert digits[..0] == "";
    }
  }

  lemma {:induction false} DecimalNatInjective(m: nat, n: nat)
    requires DecimalNat(m) == DecimalNat(n)
    ensures m == n
  {
    var a, b := DecimalNat(m), DecimalNat(n);
    assert a[|a| - 1] == b[|b| - 1];
    if m >= 10 && n >= 10 {
      assert DecimalNat(m / 10) == a[..|a| - 1] == b[..|b| - 1] == DecimalNat(n / 10);
      DecimalNatInjective(m / 10, n / 10);
    }
  }

  /** Different numbers have different texts. */
  lemma DecimalInjective(m: int, n: int)
    requires Decimal(m) == Decimal(n)
    ensures m == n
  {
    assert m >= 0 ==> Decimal(m)[0] in Decimal(m);
    assert n >= 0 ==> Decimal(n)[0] in Decimal(n);
    if m >= 0 && n >= 0 {
      DecimalNatInjective(m, n);
    } else if m < 0 && n < 0 {
      assert Decimal(m)[1..] == DecimalNat(-m) && Decimal(n)[1..] == DecimalNat(-n);
      DecimalNatInjective(-m, -n);
    }
  }
}
