/** Strings as the driver handles them: splitting on a separator, decimal numerals,
    prefixes and the byte order that sorts names. */
module Text {

  datatype Option<+T> = None | Some(value: T)

  predicate HasPrefix(s: string, prefix: string) {
    |prefix| <= |s| && s[..|prefix|] == prefix
  }

  /* ---------------------------------------------------------------- splitting */

  /** Position of the first `c`, or the length when there is none. */
  function IndexOf(s: string, c: char): (i: nat)
    ensures i <= |s|
    ensures forall k :: 0 <= k < i ==> s[k] != c
    ensures c !in s[..i]
    ensures i < |s| ==> s[i] == c
  {
    if s == [] || s[0] == c then 0 else 1 + IndexOf(s[1..], c)
  }

  /** strings.Split with a one-character separator. */
  function Split(s: string, c: char): (parts: seq<string>)
    ensures |parts| >= 1
    decreases |s|
  {
    var i := IndexOf(s, c);
    if i == |s| then [s] else [s[..i]] + Split(s[i + 1..], c)
  }

  /** strings.SplitN(s, c, 2): at most one cut. */
  function SplitOnce(s: string, c: char): (parts: seq<string>) {
    var i := IndexOf(s, c);
    if i == |s| then [s] else [s[..i], s[i + 1..]]
  }

  function Join(parts: seq<string>, c: char): string
    requires |parts| >= 1
  {
    if |parts| == 1 then parts[0] else parts[0] + [c] + Join(parts[1..], c)
  }

  lemma IndexOfAt(a: string, c: char, b: string)
    requires c !in a
    ensures IndexOf(a + [c] + b, c) == |a|
    ensures (a + [c] + b)[..|a|] == a && (a + [c] + b)[|a| + 1..] == b
  {
    var s := a + [c] + b;
    assert s[|a|] == c;
    assert forall k :: 0 <= k < |a| ==> s[k] == a[k] && a[k] in a;
  }

  lemma IndexOfNone(a: string, c: char)
    requires c !in a
    ensures IndexOf(a, c) == |a|
  {
    assert forall k :: 0 <= k < |a| ==> a[k] in a;
  }

  lemma SplitCons(a: string, c: char, b: string)
    requires c !in a
    ensures Split(a + [c] + b, c) == [a] + Split(b, c)
    ensures SplitOnce(a + [c] + b, c) == [a, b]
  {
    IndexOfAt(a, c, b);
  }

  lemma SplitNone(a: string, c: char)
    requires c !in a
    ensures Split(a, c) == [a]
    ensures SplitOnce(a, c) == [a]
  {
    IndexOfNone(a, c);
  }

  /** Splitting loses nothing: the parts hold no separator and joining restores the text. */
  lemma {:induction false} SplitParts(s: string, c: char)
    ensures forall i :: 0 <= i < |Split(s, c)| ==> c !in Split(s, c)[i]
    ensures Join(Split(s, c), c) == s
    decreases |s|
  {
    var i := IndexOf(s, c);
    if i < |s| {
      SplitParts(s[i + 1..], c);
      var rest := Split(s[i + 1..], c);
      assert Split(s, c)[1..] == rest;
      assert s == s[..i] + [c] + s[i + 1..];
    }
  }

  lemma SplitInTwo(s: string, c: char)
    ensures |Split(s, c)| == 2 ==>
              var p := Split(s, c); s == p[0] + [c] + p[1] && c !in p[0] && c !in p[1]
    ensures |Split(s, c)| == 1 <==> c !in s
    ensures |Split(s, c)| == 1 ==> Split(s, c)[0] == s
  {
    SplitParts(s, c);
    var p := Split(s, c);
    if |p| == 2 {
      assert Join(p[1..], c) == p[1];
    }
    if c !in s {
      SplitNone(s, c);
    }
  }

  /* ---------------------------------------------------------------- numerals */

  predicate IsDigit(c: char) { '0' <= c <= '9' }

  predicate AllDigits(s: string) { forall i :: 0 <= i < |s| ==> IsDigit(s[i]) }

  function DigitValue(c: char): (n: nat)
    requires IsDigit(c)
    ensures n < 10
  {
    c as int - '0' as int
  }

  function DigitChar(n: nat): (c: char)
    requires n < 10
    ensures IsDigit(c) && DigitValue(c) == n
  {
    ('0' as int + n) as char
  }

  function Value(s: string): nat
    requires AllDigits(s)
  {
    if s == [] then 0 else 10 * Value(s[..|s| - 1]) + DigitValue(s[|s| - 1])
  }

  /** The decimal numeral of a number, as "%d" prints it. */
  function Dec(n: nat): (s: string)
    ensures |s| >= 1
  {
    if n < 10 then [DigitChar(n)] else Dec(n / 10) + [DigitChar(n % 10)]
  }

  /** "%d" for a signed number. */
  function Itoa(n: int): string {
    if n < 0 then "-" + Dec(-n) else Dec(n)
  }

  predicate Canonical(s: string) {
    |s| >= 1 && AllDigits(s) && (|s| > 1 ==> s[0] != '0')
  }

  lemma {:induction false} DecValue(n: nat)
    ensures Canonical(Dec(n)) && Value(Dec(n)) == n
    ensures n > 0 ==> Dec(n)[0] != '0'
  {
    if n >= 10 {
      DecValue(n / 10);
      var s := Dec(n);
      assert s[..|s| - 1] == Dec(n / 10);
    } else {
      var s := Dec(n);
      assert s[..|s| - 1] == [];
    }
  }

  lemma TenTimes(v: nat, d: nat)
    requires d < 10
    ensures (10 * v + d) / 10 == v && (10 * v + d) % 10 == d
  {
  }

  lemma DecSnoc(v: nat, c: char)
    requires v > 0 && IsDigit(c)
    ensures Dec(10 * v + DigitValue(c)) == Dec(v) + [c]
  {
    TenTimes(v, DigitValue(c));
  }

  /** A numeral without superfluous zeros is the one "%d" prints for its value. */
  lemma {:induction false} DecOfValue(s: string)
    requires Canonical(s)
    ensures Dec(Value(s)) == s
    ensures |s| > 1 ==> Value(s) >= 10
    ensures s[0] != '0' ==> Value(s) > 0
    decreases |s|
  {
    var init, last := s[..|s| - 1], s[|s| - 1];
    if |s| == 1 {
      assert Value(init) == 0;
      assert s == [last];
    } else {
      assert init[0] == s[0];
      DecOfValue(init);
      DecSnoc(Value(init), last);
      assert s == init + [last];
    }
  }

  /** strconv.ParseUint(s, 10, b) where limit is 2 to the b. */
  function ParseUint(s: string, limit: nat): Option<nat> {
    if s != [] && AllDigits(s) && Value(s) < limit then Some(Value(s)) else None
  }

  /** strconv.ParseInt(s, 10, 32): an optional sign, digits, and a 32-bit range. */
  function ParseInt32(s: string): (r: Option<int>)
    ensures r.Some? ==> -0x8000_0000 <= r.value < 0x8000_0000
  {
    var signed := s != [] && (s[0] == '-' || s[0] == '+');
    var digits := if signed then s[1..] else s;
    match ParseUint(digits, 0x1_0000_0000)
    case None => None
    case Some(m) =>
      var n: int := m;
      if signed && s[0] == '-' then
        if n <= 0x8000_0000 then Some(-n) else None
      else
        if n < 0x8000_0000 then Some(n) else None
  }

  lemma UintRoundTrip(n: nat, limit: nat)
    requires n < limit
    ensures ParseUint(Dec(n), limit) == Some(n)
    ensures Dec(n)[0] != '-' && Dec(n)[0] != '+' && ':' !in Dec(n)
  {
    DecValue(n);
    assert IsDigit(Dec(n)[0]);
  }

  lemma Int32RoundTrip(n: int)
    requires -0x8000_0000 <= n < 0x8000_0000
    ensures ParseInt32(Itoa(n)) == Some(n)
    ensures ':' !in Itoa(n) && Itoa(n) != ""
  {
    var m := if n < 0 then -n else n;
    UintRoundTrip(m, 0x1_0000_0000);
    if n < 0 {
      assert Itoa(n)[1..] == Dec(m);
    }
  }

  /** Which texts are 32-bit numbers: digits, with or without a sign, in range. */
  lemma Int32Forms(d: string)
    requires d != "" && AllDigits(d)
    ensures ParseInt32(d) == if Value(d) < 2_147_483_648 then Some(Value(d)) else None
    ensures ParseInt32("+" + d) == ParseInt32(d)
    ensures ParseInt32("-" + d) == if Value(d) <= 2_147_483_648 then Some(0 - Value(d)) else None
  {
    assert IsDigit(d[0]);
    assert ("+" + d)[1..] == d && ("-" + d)[1..] == d;
  }

  lemma OnlyInt32Forms(s: string)
    requires ParseInt32(s).Some?
    ensures exists d: string :: d != "" && AllDigits(d) && s in {d, "+" + d, "-" + d}
  {
    var signed := s != [] && (s[0] == '-' || s[0] == '+');
    var d := if signed then s[1..] else s;
    assert d != "" && AllDigits(d);
    if signed {
      assert s == [s[0]] + d;
      assert s in {d, "+" + d, "-" + d};
    } else {
      assert s in {d, "+" + d, "-" + d};
    }
  }

  /* ---------------------------------------------------------------- name order */

  /** The order sort.Strings uses. */
  predicate Less(a: string, b: string) {
    b != [] && (a == [] || a[0] < b[0] || (a[0] == b[0] && Less(a[1..], b[1..])))
  }

  lemma {:induction false} LessTotal(a: string, b: string)
    ensures Less(a, b) || Less(b, a) || a == b
    ensures !(Less(a, b) && Less(b, a))
    ensures !Less(a, a)
    decreases |a|
  {
    if a != [] {
      LessTotal(a[1..], a[1..]);
      if b != [] {
        LessTotal(a[1..], b[1..]);
        assert a == [a[0]] + a[1..] && b == [b[0]] + b[1..];
      }
    }
  }

  lemma {:induction false} LessTransitive(a: string, b: string, c: string)
    requires Less(a, b) && Less(b, c)
    ensures Less(a, c)
  {
    if a != [] && a[0] == b[0] == c[0] {
      LessTransitive(a[1..], b[1..], c[1..]);
    }
  }

  /** One name is in front of another when it is a proper beginning of it, or has the smaller
      character where they first differ. */
  lemma {:induction false} LessForm(a: string, b: string)
    ensures Less(a, b) <==>
              exists k :: 0 <= k <= |a| && k < |b| && a[..k] == b[..k] && (k == |a| || a[k] < b[k])
  {
    if a != [] && b != [] && a[0] == b[0] {
      var x, y := a[1..], b[1..];
      LessForm(x, y);
      assert a == [a[0]] + x && b == [a[0]] + y;
      if k :| 0 <= k <= |x| && k < |y| && x[..k] == y[..k] && (k == |x| || x[k] < y[k]) {
        assert a[..k + 1] == [a[0]] + x[..k] && b[..k + 1] == [a[0]] + y[..k];
      }
      if k :| 0 <= k <= |a| && k < |b| && a[..k] == b[..k] && (k == |a| || a[k] < b[k]) {
        assert x[..k - 1] == a[..k][1..] && y[..k - 1] == b[..k][1..];
      }
    } else if b != [] {
      assert a[..0] == b[..0];
      if k :| 0 <= k <= |a| && k < |b| && a[..k] == b[..k] && (k == |a| || a[k] < b[k]) {
        assert k > 0 ==> a[..k][0] == b[..k][0];
      }
    }
  }

  ghost predicate StrictlySorted(s: seq<string>) {
    forall i, j :: 0 <= i < j < |s| ==> Less(s[i], s[j])
  }

  /** The names of a set in sorted order. */
  ghost predicate ListsInOrder(s: seq<string>, names: set<string>) {
    StrictlySorted(s) && forall x :: x in s <==> x in names
  }

  /** The position at which `x` keeps a sorted list sorted. */
  function Insert(s: seq<string>, x: string): (r: seq<string>) {
    if s == [] then [x] else if Less(x, s[0]) then [x] + s else [s[0]] + Insert(s[1..], x)
  }

  lemma {:induction false} InsertSorted(s: seq<string>, x: string)
    requires StrictlySorted(s) && x !in s
    ensures StrictlySorted(Insert(s, x))
    ensures forall y :: y in Insert(s, x) <==> y == x || y in s
  {
    if s == [] {
    } else if Less(x, s[0]) {
      forall i | 0 < i < |s| ensures Less(x, s[i]) {
        LessTransitive(x, s[0], s[i]);
      }
    } else {
      LessTotal(x, s[0]);
      InsertSorted(s[1..], x);
      var t := Insert(s[1..], x);
      forall y | y in t ensures Less(s[0], y) {
        if y != x {
          var k :| 0 <= k < |s[1..]| && s[1..][k] == y;
          assert Less(s[0], s[k + 1]);
        }
      }
    }
  }

  /** Names in order, whatever order they are met in. */
  ghost function Sorted(names: set<string>): (s: seq<string>)
    ensures ListsInOrder(s, names)
  {
    if names == {} then []
    else
      var x :| x in names;
      var rest := Sorted(names - {x});
      InsertSorted(rest, x);
      Insert(rest, x)
  }

  lemma SortedMembers(names: set<string>)
    ensures forall i :: 0 <= i < |Sorted(names)| ==> Sorted(names)[i] in names
  {
    var s := Sorted(names);
    forall i | 0 <= i < |s| ensures s[i] in names {
      assert s[i] in s;
    }
  }

  /** A set of names has only one sorted listing. */
  lemma {:induction false} SortedUnique(s: seq<string>, t: seq<string>, names: set<string>)
    requires ListsInOrder(s, names) && ListsInOrder(t, names)
    ensures s == t
    decreases |s|
  {
    assert forall x :: x in s <==> x in t;
    assert |s| > 0 ==> s[0] in t;
    assert |t| > 0 ==> t[0] in s;
    if s != [] {
      var i :| 0 <= i < |t| && t[i] == s[0];
      var j :| 0 <= j < |s| && s[j] == t[0];
      LessTotal(s[0], t[0]);
      TailListing(s, names);
      TailListing(t, names);
      SortedUnique(s[1..], t[1..], names - {s[0]});
      assert s == [s[0]] + s[1..] && t == [t[0]] + t[1..];
    }
  }

  lemma HeadApart(s: seq<string>)
    requires StrictlySorted(s) && s != []
    ensures s[0] !in s[1..]
  {
    forall k | 0 <= k < |s[1..]| ensures s[1..][k] != s[0] {
      assert Less(s[0], s[k + 1]);
      LessTotal(s[0], s[k + 1]);
    }
  }

  lemma TailListing(s: seq<string>, names: set<string>)
    requires ListsInOrder(s, names) && s != []
    ensures ListsInOrder(s[1..], names - {s[0]})
  {
    HeadApart(s);
    assert s == [s[0]] + s[1..];
    forall x ensures x in s[1..] <==> x in names - {s[0]} {
      assert x in s <==> x == s[0] || x in s[1..];
    }
  }

  /** sort.Strings on a list without repetitions. */
  method SortStrings(list: seq<string>) returns (s: seq<string>)
    requires forall i, j :: 0 <= i < j < |list| ==> list[i] != list[j]
    ensures s == Sorted(set x | x in list)
  {
    s := [];
    var i := 0;
    while i < |list|
      invariant i <= |list| && StrictlySorted(s)
      invariant forall x :: x in s <==> x in list[..i]
    {
      InsertSorted(s, list[i]);
      s := Insert(s, list[i]);
      i := i + 1;
    }
    assert list[..i] == list;
    SortedUnique(s, Sorted(set x | x in list), set x | x in list);
  }

  /** The names of a set, met in any order and then sorted. */
  method NamesInOrder(names: set<string>) returns (s: seq<string>)
    ensures s == Sorted(names)
  {
    var list, rest := [], names;
    while rest != {}
      invariant rest <= names
      invariant forall i, j :: 0 <= i < j < |list| ==> list[i] != list[j]
      invariant forall x :: x in list <==> x in names && x !in rest
      decreases |rest|
    {
      var x :| x in rest;
      list, rest := list + [x], rest - {x};
    }
    s := SortStrings(list);
    assert (set x | x in list) == names;
  }
}
