/** Text handling shared by the models: splitting and joining, decimal numerals as
    Go's strconv reads and writes them, and byte-wise string order and sorting. */
module Text {

  datatype Option<+T> = None | Some(value: T)

  // ---------------------------------------------------------------- split and join

  function IndexOf(s: string, c: char): (i: nat)
    requires c in s
    ensures i < |s| && s[i] == c && c !in s[..i]
  {
    if s[0] == c then 0
    else
      var j := IndexOf(s[1..], c);
      assert s[..j + 1] == [s[0]] + s[1..][..j];
      j + 1
  }

  lemma IndexOfIs(s: string, c: char, k: nat)
    requires k < |s| && s[k] == c && c !in s[..k]
    ensures IndexOf(s, c) == k
  {
    assert forall j :: 0 <= j < k ==> s[j] in s[..k];
    assert forall j :: 0 <= j < IndexOf(s, c) ==> s[j] in s[..IndexOf(s, c)];
  }

  function Join(parts: seq<string>, sep: char): string
    requires |parts| > 0
  {
    if |parts| == 1 then parts[0] else parts[0] + [sep] + Join(parts[1..], sep)
  }

  /** The pieces hold no separator and joining them gives the text back. */
  function Split(s: string, sep: char): (parts: seq<string>)
    ensures |parts| > 0 && Join(parts, sep) == s
    ensures forall p :: p in parts ==> sep !in p
  {
    if sep !in s then [s]
    else
      var i := IndexOf(s, sep);
      var rest := Split(s[i + 1..], sep);
      assert ([s[..i]] + rest)[1..] == rest;
      assert s == s[..i] + [sep] + s[i + 1..];
      [s[..i]] + rest
  }

  /** Split cuts at the first separator. */
  lemma SplitAtFirst(head: string, tail: string, sep: char)
    requires sep !in head
    ensures Split(head + [sep] + tail, sep) == [head] + Split(tail, sep)
  {
    var s, i := head + [sep] + tail, |head|;
    assert s[i] == sep && s[..i] == head && s[i + 1..] == tail;
    IndexOfIs(s, sep, i);
  }

  lemma {:induction false} SplitJoin(parts: seq<string>, sep: char)
    requires |parts| > 0 && forall p :: p in parts ==> sep !in p
    ensures Split(Join(parts, sep), sep) == parts
  {
    if |parts| > 1 {
      SplitJoin(parts[1..], sep);
      SplitAtFirst(parts[0], Join(parts[1..], sep), sep);
      assert parts == [parts[0]] + parts[1..];
    }
  }

  /** A list of separator-free pieces can be read back from its joined form. */
  lemma JoinInjective(a: seq<string>, b: seq<string>, sep: char)
    requires |a| > 0 && |b| > 0
    requires forall p :: p in a + b ==> sep !in p
    requires Join(a, sep) == Join(b, sep)
    ensures a == b
  {
    assert forall p :: p in a ==> p in a + b;
    assert forall p :: p in b ==> p in a + b;
    SplitJoin(a, sep);
    SplitJoin(b, sep);
  }

  /** strings.Split(s, "/")[0] */
  function BeforeSlash(s: string): (r: string)
    ensures '/' !in r && r <= s
    ensures '/' !in s ==> r == s
  {
    if '/' in s then s[..IndexOf(s, '/')] else s
  }

  /** A suffix after a slash does not change the part before the first slash. */
  lemma BeforeSlashOfSuffixed(s: string, suffix: string)
    ensures BeforeSlash(s + "/" + suffix) == BeforeSlash(s)
  {
    var t := s + "/" + suffix;
    var k := if '/' in s then IndexOf(s, '/') else |s|;
    assert t[..k] == s[..k] && t[k] == '/';
    IndexOfIs(t, '/', k);
  }

  /** The last position of c, as strings.LastIndex; the part after it is free of c. */
  function LastIndex(s: string, c: char): (i: nat)
    requires c in s
    ensures i < |s| && s[i] == c && c !in s[i + 1..]
  {
    if s[|s| - 1] == c then |s| - 1
    else
      var t := s[..|s| - 1];
      assert s == t + [s[|s| - 1]];
      var i := LastIndex(t, c);
      assert s[i + 1..] == t[i + 1..] + [s[|s| - 1]];
      i
  }

  /** A separator followed by text without it is the last one. */
  lemma LastIndexBefore(s: string, c: char, tail: string)
    requires c !in tail
    ensures var t := s + [c] + tail; c in t && LastIndex(t, c) == |s| && t[..|s|] == s && t[|s| + 1..] == tail
  {
    var t := s + [c] + tail;
    assert t[|s|] == c && t[|s| + 1..] == tail;
    assert forall j :: |s| < j < |t| ==> t[j] in tail by {
      assert forall j :: |s| < j < |t| ==> t[j] == tail[j - |s| - 1];
    }
    assert forall j :: LastIndex(t, c) < j < |t| ==> t[j] in t[LastIndex(t, c) + 1..];
  }

  // ---------------------------------------------------------------- decimal numerals

  const WORD64 := 0x1_0000_0000_0000_0000

  predicate IsDigit(c: char) { '0' <= c <= '9' }

  predicate AllDigits(s: string) { forall i :: 0 <= i < |s| ==> IsDigit(s[i]) }

  function DigitsValue(s: string): (n: nat)
    requires AllDigits(s)
  {
    if s == "" then 0 else DigitsValue(s[..|s| - 1]) * 10 + (s[|s| - 1] as int - '0' as int)
  }

  /** strconv.ParseUint(s, 10, w) with limit == 2^w. */
  function ParseUint(s: string, limit: nat): (r: Option<nat>)
    ensures r.Some? ==> s != "" && AllDigits(s) && r.value < limit
  {
    if s != "" && AllDigits(s) && DigitsValue(s) < limit then Some(DigitsValue(s)) else None
  }

  function Decimal(n: nat): (s: string)
    ensures s != "" && AllDigits(s) && DigitsValue(s) == n
    ensures n > 0 ==> s[0] != '0'
    ensures n < 10 ==> |s| == 1
  {
    var last := ('0' as int + n % 10) as char;
    if n < 10 then [last]
    else
      var front := Decimal(n / 10);
      var s := front + [last];
      assert s[..|s| - 1] == front;
      s
  }

  /** A numeral without leading zeros is the numeral Decimal writes for its value. */
  lemma {:induction false} DecimalOfValue(s: string)
    requires s != "" && AllDigits(s) && (|s| > 1 ==> s[0] != '0')
    ensures Decimal(DigitsValue(s)) == s
  {
    var front := s[..|s| - 1];
    var d := s[|s| - 1] as int - '0' as int;
    if front == "" {
      assert DigitsValue(s) == d;
    } else {
      DecimalOfValue(front);
      LeadingDigitPositive(front);
      assert DigitsValue(s) / 10 == DigitsValue(front) && DigitsValue(s) % 10 == d;
      assert s == front + [s[|s| - 1]];
    }
  }

  lemma {:induction false} LeadingDigitPositive(s: string)
    requires s != "" && AllDigits(s) && s[0] != '0'
    ensures DigitsValue(s) > 0
  {
    if |s| > 1 { LeadingDigitPositive(s[..|s| - 1]); } else { assert s[..0] == ""; }
  }

  // ---------------------------------------------------------------- byte order

  /** Go's `<` on strings. */
  predicate Less(a: string, b: string) {
    b != "" && (a == "" || a[0] < b[0] || (a[0] == b[0] && Less(a[1..], b[1..])))
  }

  /** The texts agree before position k. */
  predicate AgreeBefore(a: string, b: string, k: nat)
    requires k <= |a| && k <= |b|
  {
    forall i :: 0 <= i < k ==> a[i] == b[i]
  }

  /** The first differing byte decides, and a proper prefix comes first. */
  lemma {:induction false} LessMeans(a: string, b: string)
    ensures Less(a, b) <==>
      || (|a| < |b| && AgreeBefore(a, b, |a|))
      || exists k: nat :: k < |a| && k < |b| && AgreeBefore(a, b, k) && a[k] < b[k]
  {
    if a != "" && b != "" {
      LessMeans(a[1..], b[1..]);
      if a[0] == b[0] {
        forall k: nat | k < |a| && k < |b| ensures AgreeBefore(a[1..], b[1..], k) <==> AgreeBefore(a, b, k + 1) {
          AgreeStep(a, b, k);
        }
        if |a| <= |b| { AgreeStep(a, b, |a| - 1); }
        if k: nat :| k < |a| && k < |b| && AgreeBefore(a, b, k) && a[k] < b[k] {
          assert k > 0 && AgreeBefore(a[1..], b[1..], k - 1) && a[1..][k - 1] < b[1..][k - 1];
        }
        if k: nat :| k < |a| - 1 && k < |b| - 1 && AgreeBefore(a[1..], b[1..], k) && a[1..][k] < b[1..][k] {
          assert AgreeBefore(a, b, k + 1) && a[k + 1] < b[k + 1];
        }
      } else {
        assert AgreeBefore(a, b, 0);
        forall k: nat | 0 < k <= |a| && k <= |b| ensures !AgreeBefore(a, b, k) {
          assert a[0] != b[0];
        }
      }
    }
  }

  lemma AgreeStep(a: string, b: string, k: nat)
    requires a != "" && b != "" && a[0] == b[0] && k < |a| && k < |b|
    ensures AgreeBefore(a[1..], b[1..], k) <==> AgreeBefore(a, b, k + 1)
  {
    if AgreeBefore(a[1..], b[1..], k) {
      forall i | 0 <= i < k + 1 ensures a[i] == b[i] {
        if i > 0 { assert a[1..][i - 1] == b[1..][i - 1]; }
      }
    }
    if AgreeBefore(a, b, k + 1) {
      forall i | 0 <= i < k ensures a[1..][i] == b[1..][i] { assert a[i + 1] == b[i + 1]; }
    }
  }

  lemma {:induction false} LessIrreflexive(a: string)
    ensures !Less(a, a)
  {
    if a != "" { LessIrreflexive(a[1..]); }
  }

  lemma {:induction false} LessTransitive(a: string, b: string, c: string)
    requires Less(a, b) && Less(b, c)
    ensures Less(a, c)
  {
    if a != "" && a[0] == b[0] == c[0] { LessTransitive(a[1..], b[1..], c[1..]); }
  }

  lemma {:induction false} LessTotal(a: string, b: string)
    ensures Less(a, b) || a == b || Less(b, a)
  {
    if a != "" && b != "" && a[0] == b[0] {
      LessTotal(a[1..], b[1..]);
      if a[1..] == b[1..] { assert a == [a[0]] + a[1..]; assert b == [b[0]] + b[1..]; }
    }
  }

  lemma LessAsymmetric(a: string, b: string)
    requires Less(a, b)
    ensures !Less(b, a)
  {
    if Less(b, a) {
      LessTransitive(a, b, a);
      LessIrreflexive(a);
    }
  }

  lemma NotLessTransitive(a: string, b: string, c: string)
    requires !Less(b, a) && (b == c || !Less(c, b))
    ensures !Less(c, a)
  {
    LessTotal(b, c);
    LessTotal(a, b);
    if Less(c, a) && Less(b, c) { LessTransitive(b, c, a); }
  }

  // ---------------------------------------------------------------- sorting

  ghost predicate Sorted<T>(s: seq<T>, key: T -> string) {
    forall i, j :: 0 <= i < j < |s| ==> !Less(key(s[j]), key(s[i]))
  }

  ghost predicate StrictlySorted<T>(s: seq<T>, key: T -> string) {
    forall i, j :: 0 <= i < j < |s| ==> Less(key(s[i]), key(s[j]))
  }

  function Insert<T>(x: T, s: seq<T>, key: T -> string): (r: seq<T>)
    ensures multiset(r) == multiset{x} + multiset(s)
  {
    if s == [] then [x]
    else if Less(key(s[0]), key(x)) then
      var r := [s[0]] + Insert(x, s[1..], key);
      assert s == [s[0]] + s[1..];
      r
    else [x] + s
  }

  /** sort.Strings and sort.Slice: only the order and the multiset of the result matter. */
  function Sort<T(!new)>(s: seq<T>, key: T -> string): (r: seq<T>)
    ensures multiset(r) == multiset(s)
    ensures |r| == |s|
    ensures forall x :: x in r <==> x in s
  {
    if s == [] then []
    else
      var r := Insert(s[0], Sort(s[1..], key), key);
      assert s == [s[0]] + s[1..];
      assert |multiset(r)| == |r| && |multiset(s)| == |s|;
      assert forall x :: x in r <==> x in multiset(r);
      assert forall x :: x in s <==> x in multiset(s);
      r
  }

  lemma {:induction false} InsertSorted<T>(x: T, s: seq<T>, key: T -> string)
    requires Sorted(s, key)
    ensures Sorted(Insert(x, s, key), key)
  {
    if s == [] {
    } else if Less(key(s[0]), key(x)) {
      var rest := Insert(x, s[1..], key);
      InsertSorted(x, s[1..], key);
      forall j | 0 <= j < |rest| ensures !Less(key(rest[j]), key(s[0])) {
        assert rest[j] in multiset(rest);
        assert rest[j] == x || rest[j] in s[1..];
        LessAsymmetric(key(s[0]), key(x));
      }
    } else {
      forall j | 0 <= j < |s| ensures !Less(key(s[j]), key(x)) {
        NotLessTransitive(key(x), key(s[0]), key(s[j]));
      }
    }
  }

  lemma {:induction false} SortSorts<T(!new)>(s: seq<T>, key: T -> string)
    ensures Sorted(Sort(s, key), key)
  {
    if s != [] {
      SortSorts(s[1..], key);
      InsertSorted(s[0], Sort(s[1..], key), key);
    }
  }

  /** With pairwise different keys the sorted result is strictly sorted. */
  lemma {:induction false} SortStrict<T(!new)>(s: seq<T>, key: T -> string)
    requires forall i, j :: 0 <= i < j < |s| ==> key(s[i]) != key(s[j])
    ensures StrictlySorted(Sort(s, key), key)
  {
    if s != [] {
      var rest := Sort(s[1..], key);
      SortStrict(s[1..], key);
      forall x | x in rest ensures key(x) != key(s[0]) {
        var j: nat :| j < |s| - 1 && s[1..][j] == x;
        assert s[j + 1] == x;
      }
      InsertStrict(s[0], rest, key);
    }
  }

  lemma {:induction false} InsertStrict<T(!new)>(x: T, s: seq<T>, key: T -> string)
    requires StrictlySorted(s, key) && forall y :: y in s ==> key(y) != key(x)
    ensures StrictlySorted(Insert(x, s, key), key)
  {
    if s == [] {
    } else if Less(key(s[0]), key(x)) {
      var rest := Insert(x, s[1..], key);
      InsertStrict(x, s[1..], key);
      forall j | 0 <= j < |rest| ensures Less(key(s[0]), key(rest[j])) {
        assert rest[j] in multiset(rest);
        assert rest[j] == x || rest[j] in s[1..];
      }
    } else {
      LessTotal(key(s[0]), key(x));
      forall j | 0 < j < |s| ensures Less(key(x), key(s[j])) {
        LessTransitive(key(x), key(s[0]), key(s[j]));
      }
    }
  }

  /** Strictly sorted sequences over the same elements are equal. */
  lemma {:induction false} SortedUnique<T(!new)>(a: seq<T>, b: seq<T>, key: T -> string)
    requires StrictlySorted(a, key) && StrictlySorted(b, key)
    requires forall x :: x in a <==> x in b
    ensures a == b
  {
    if a == [] {
      assert forall i :: 0 <= i < |b| ==> b[i] in a;
    } else {
      assert a[0] in b && b != [];
      assert b[0] in a;
      FirstIsLeast(a, b[0], key);
      FirstIsLeast(b, a[0], key);
      if a[0] != b[0] { LessTransitive(key(a[0]), key(b[0]), key(a[0])); LessIrreflexive(key(a[0])); }
      forall x ensures x in a[1..] <==> x in b[1..] {
        TailMembership(a, x, key);
        TailMembership(b, x, key);
      }
      SortedUnique(a[1..], b[1..], key);
      assert a == [a[0]] + a[1..] && b == [b[0]] + b[1..];
    }
  }

  lemma FirstIsLeast<T>(s: seq<T>, x: T, key: T -> string)
    requires StrictlySorted(s, key) && x in s
    ensures s[0] == x || Less(key(s[0]), key(x))
  {
  }

  lemma TailMembership<T>(s: seq<T>, x: T, key: T -> string)
    requires s != [] && StrictlySorted(s, key)
    ensures x in s[1..] <==> x in s && x != s[0]
  {
    if x in s[1..] {
      var i: nat :| i < |s| - 1 && s[1..][i] == x;
      assert s[i + 1] == x && Less(key(s[0]), key(s[i + 1]));
      LessIrreflexive(key(x));
    }
  }
}
