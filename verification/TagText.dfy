/** The textual form of a label set, "{a,b,...}" in ascending decimal order.
    The intern map is keyed by this text and the sinks' noise filter counts its
    commas, so the text has to determine the set (`UnprintOfSprint`) and the
    comma count has to be the size of the set (`TokensOfSprint`). */
module TagText {

  type Label = nat

  // ---------------------------------------------------------------- decimals

  function Digit(d: nat): (c: char)
    requires d < 10
    ensures '0' <= c <= '9' && (c as int) - ('0' as int) == d
  {
    ('0' as int + d) as char
  }

  function Decimal(n: nat): (s: string)
    ensures |s| > 0 && forall i :: 0 <= i < |s| ==> '0' <= s[i] <= '9'
  {
    if n < 10 then [Digit(n)] else Decimal(n / 10) + [Digit(n % 10)]
  }

  // The number a string of digits stands for; anything else counts as 0.
  function Numeral(s: string): nat {
    if s == [] then 0
    else
      var c := s[|s| - 1];
      10 * Numeral(s[..|s| - 1]) + if '0' <= c <= '9' then (c as int) - ('0' as int) else 0
  }

  lemma {:induction false} NumeralOfDecimal(n: nat)
    ensures Numeral(Decimal(n)) == n
  {
    var s := Decimal(n);
    if n < 10 {
      assert Numeral(s[..0]) == 0;
    } else {
      NumeralOfDecimal(n / 10);
      assert s[..|s| - 1] == Decimal(n / 10);
    }
  }

  function Power10(k: nat): (r: nat)
    ensures r > 0
  {
    if k == 0 then 1 else 10 * Power10(k - 1)
  }

  /** The digits: the k-th from the right is that of 10^k, and there are no
      leading zeros. */
  lemma {:induction false} DecimalDigits(n: nat, k: nat)
    ensures var s := Decimal(n);
            && n < Power10(|s|) && (n > 0 ==> Power10(|s| - 1) <= n)
            && (k < |s| ==> s[|s| - 1 - k] == Digit(n / Power10(k) % 10))
  {
    var s := Decimal(n);
    if n < 10 {
      assert |s| == 1 && Power10(0) == 1 && Power10(1) == 10 * Power10(0);
      assert k == 0 ==> n / Power10(k) == n;
    } else {
      var rest := Decimal(n / 10);
      DecimalDigits(n / 10, if k > 0 then k - 1 else 0);
      assert s == rest + [Digit(n % 10)];
      assert Power10(|s|) == 10 * Power10(|rest|) && Power10(|s| - 1) == 10 * Power10(|rest| - 1);
      if k == 0 {
        assert n / Power10(0) == n;
      } else if k < |s| {
        assert s[|s| - 1 - k] == rest[|rest| - 1 - (k - 1)];
        DivideByTen(n, Power10(k - 1));
      }
    }
  }

  lemma MulMono(d: nat, a: int, b: int)
    ensures a <= b ==> d * a <= d * b
  {
  }

  lemma DivideByTen(n: nat, b: nat)
    requires b > 0
    ensures n / 10 / b == n / (10 * b)
  {
    var q, r := n / 10 / b, n / 10 % b;
    assert n / 10 == b * q + r;
    TenTimes(b, q);
    QuotientIs(n, 10 * b, q, 10 * r + n % 10);
  }

  lemma TenTimes(b: nat, q: nat)
    ensures 10 * b * q == 10 * (b * q)
  {
  }

  lemma QuotientIs(n: nat, d: nat, q: nat, r: nat)
    requires d > 0 && n == d * q + r && r < d
    ensures n / d == q
  {
    var p := n / d;
    assert n == d * p + n % d;
    MulMono(d, p + 1, q);
    MulMono(d, q + 1, p);
  }

  // ------------------------------------------------------ ascending iteration

  lemma LeastExists(s: set<Label>)
    requires s != {}
    ensures exists m :: m in s && forall x :: x in s ==> m <= x
  {
    var e :| e in s;
    if s != {e} {
      LeastExists(s - {e});
      var m :| m in s - {e} && forall x :: x in s - {e} ==> m <= x;
      assert forall x :: x in s ==> x == e || x in s - {e};
      var k := if m <= e then m else e;
      assert k in s && forall x :: x in s ==> k <= x;
    }
  }

  function Least(s: set<Label>): (m: Label)
    requires s != {}
    ensures m in s && forall x :: x in s ==> m <= x
  {
    LeastExists(s);
    var m :| m in s && forall x :: x in s ==> m <= x;
    m
  }

  predicate StrictlyAscending(xs: seq<Label>) {
    forall i, j :: 0 <= i < j < |xs| ==> xs[i] < xs[j]
  }

  // The order in which the bitmap's iterator yields its offsets.
  function Ascending(s: set<Label>): seq<Label> {
    if s == {} then [] else [Least(s)] + Ascending(s - {Least(s)})
  }

  /** The iteration yields every element once, in strictly ascending order. */
  lemma {:induction false} AscendingIsSorted(s: set<Label>)
    ensures |Ascending(s)| == |s| && StrictlyAscending(Ascending(s))
    ensures forall x :: x in Ascending(s) <==> x in s
  {
    if s != {} {
      var m := Least(s);
      AscendingIsSorted(s - {m});
      var rest := Ascending(s - {m});
      assert forall i :: 0 <= i < |rest| ==> rest[i] in rest;
    }
  }

  // ------------------------------------------------------------------- text

  function Join(xs: seq<Label>): string {
    if xs == [] then ""
    else if |xs| == 1 then Decimal(xs[0])
    else Decimal(xs[0]) + "," + Join(xs[1..])
  }

  function Sprint(s: set<Label>): string {
    if s != {} then "{" + Join(Ascending(s)) + "}" else "{}"
  }

  /** The text of a set: braces around the decimals of its elements in ascending
      order, with commas between them. */
  lemma SprintText(s: set<Label>, xs: seq<Label>)
    requires StrictlyAscending(xs) && forall x :: x in xs <==> x in s
    ensures Sprint(s) == "{" + Join(xs) + "}"
  {
    hide Join, Ascending;
    AscendingIsSorted(s);
    OneOrder(Ascending(s), xs);
    if s == {} {
      JoinText([], 0);
      assert xs == [];
    }
  }

  lemma JoinText(xs: seq<Label>, a: Label)
    ensures Join([]) == ""
    ensures Join([a] + xs) == if xs == [] then Decimal(a) else Decimal(a) + "," + Join(xs)
  {
    assert ([a] + xs)[1..] == xs;
  }

  lemma HasElement(xs: seq<Label>)
    ensures xs != [] ==> xs[0] in xs
  {
  }

  // Two strictly ascending sequences with the same elements are equal.
  lemma {:induction false} OneOrder(xs: seq<Label>, ys: seq<Label>)
    requires StrictlyAscending(xs) && StrictlyAscending(ys) && forall x :: x in xs <==> x in ys
    ensures xs == ys
  {
    HasElement(xs);
    HasElement(ys);
    if xs != [] && ys != [] {
      forall x ensures x in xs[1..] <==> x in ys[1..] {
        assert x in xs[1..] <==> x in xs && x != xs[0];
        assert x in ys[1..] <==> x in ys && x != ys[0];
      }
      OneOrder(xs[1..], ys[1..]);
    }
  }

  // Splitting a text at its commas.
  function Split(s: string): (parts: seq<string>)
    ensures |parts| == CommaCount(s) + 1
  {
    if s == [] then [""]
    else
      var rest := Split(s[1..]);
      if s[0] == ',' then [""] + rest else [[s[0]] + rest[0]] + rest[1..]
  }

  function CommaCount(s: string): nat {
    if s == [] then 0 else (if s[0] == ',' then 1 else 0) + CommaCount(s[1..])
  }

  // Reading a printed set back.
  function Unprint(text: string): set<Label> {
    if |text| <= 2 then {}
    else set part | part in Split(text[1..|text| - 1]) :: Numeral(part)
  }

  lemma {:induction false} SplitDigits(d: string, rest: string)
    requires forall i :: 0 <= i < |d| ==> d[i] != ','
    ensures Split(d) == [d]
    ensures Split(d + "," + rest) == [d] + Split(rest)
  {
    if d == [] {
      assert d + "," + rest == "," + rest;
      assert ("," + rest)[1..] == rest;
    } else {
      SplitDigits(d[1..], rest);
      assert (d + "," + rest)[1..] == d[1..] + "," + rest;
      assert [d[0]] + d[1..] == d;
    }
  }

  lemma {:induction false} SplitOfJoin(xs: seq<Label>)
    requires xs != []
    ensures Split(Join(xs)) == seq(|xs|, i requires 0 <= i < |xs| => Decimal(xs[i]))
  {
    SplitDigits(Decimal(xs[0]), Join(xs[1..]));
    if |xs| > 1 {
      SplitOfJoin(xs[1..]);
    }
  }

  /** Reading the text of a set gives the set back. */
  lemma UnprintOfSprint(s: set<Label>)
    ensures Unprint(Sprint(s)) == s
  {
    if s != {} {
      AscendingIsSorted(s);
      var xs := Ascending(s);
      var text := Sprint(s);
      SplitOfJoin(xs);
      assert text[1..|text| - 1] == Join(xs);
      var parts := Split(Join(xs));
      forall x | x in s ensures x in Unprint(text) {
        var i :| 0 <= i < |xs| && xs[i] == x;
        NumeralOfDecimal(x);
        assert parts[i] in parts;
      }
      forall x | x in Unprint(text) ensures x in s {
        var part :| part in parts && Numeral(part) == x;
        var i :| 0 <= i < |parts| && parts[i] == part;
        NumeralOfDecimal(xs[i]);
        assert xs[i] in xs;
      }
    }
  }

  /** Keying a map by the text is the same as keying it by the set. */
  lemma SprintInjective(s: set<Label>, t: set<Label>)
    ensures Sprint(s) == Sprint(t) <==> s == t
  {
    UnprintOfSprint(s);
    UnprintOfSprint(t);
  }

  // ------------------------------------------------------------ noise filter

  lemma {:induction false} CommaCountConcat(a: string, b: string)
    ensures CommaCount(a + b) == CommaCount(a) + CommaCount(b)
  {
    if a == [] {
      assert a + b == b;
    } else {
      CommaCountConcat(a[1..], b);
      assert (a + b)[1..] == a[1..] + b;
    }
  }

  /** comma_tokens: the number of tokens a split on ',' would give. */
  method CommaTokens(s: string) returns (n: nat)
    ensures n == |Split(s)|
  {
    n := 1;
    for i := 0 to |s|
      invariant n == 1 + CommaCount(s[..i])
    {
      CommaCountConcat(s[..i], [s[i]]);
      assert s[..i] + [s[i]] == s[..i + 1];
      if s[i] == ',' {
        n := n + 1;
      }
    }
    assert s[..|s|] == s;
  }

  /** The filter's token count of a printed set is its size, but never 0. */
  lemma TokensOfSprint(s: set<Label>)
    ensures |Split(Sprint(s))| == if s == {} then 1 else |s|
  {
    if s == {} {
      assert Sprint(s) == "{}" && "{}"[1..] == "}" && "}"[1..] == "";
      assert CommaCount("}") == 0;
    } else {
      AscendingIsSorted(s);
      var body := Join(Ascending(s));
      SplitOfJoin(Ascending(s));
      CommaCountConcat("{" + body, "}");
      CommaCountConcat("{", body);
      assert CommaCount("{") == 0 && CommaCount("}") == 0;
    }
  }
}
