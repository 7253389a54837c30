/** benches/listfmt_cmp.rs: four ways of rendering a slice of numbers as their
    decimal renderings separated by commas, e.g. `[1, 22, 3]` as `"1,22,3"`. */
module ListfmtCmp {
  import opened Common
  import opened Decimal

  /** `vec.iter().map(|v| v.to_string()).collect::<Vec<String>>()`. */
  function Renderings(vec: seq<Usize>): (r: seq<string>)
    ensures |r| == |vec|
    ensures forall i :: 0 <= i < |vec| ==> r[i] == NatToDecimal(vec[i])
  {
    if vec == [] then []
    else Renderings(vec[..|vec| - 1]) + [NatToDecimal(vec[|vec| - 1])]
  }

  /** `[String]::join(",")`: the parts with one comma between neighbours. */
  function Join(parts: seq<string>): string {
    if |parts| == 0 then ""
    else if |parts| == 1 then parts[0]
    else Join(parts[..|parts| - 1]) + [','] + parts[|parts| - 1]
  }

  /** join_string. */
  function JoinString(vec: seq<Usize>): (r: string)
    ensures r == "" <==> vec == []
  {
    var parts := Renderings(vec);
    assert parts != [] ==> |Join(parts)| >= |parts[|parts| - 1]| >= 1 by {
      if |parts| > 1 { assert parts[|parts| - 1] == NatToDecimal(vec[|vec| - 1]); }
    }
    Join(parts)
  }

  /** format_string: itertools' `format_with(",", ..)` writes the first
      element with `{:?}` (plain decimal for usize), then for every further
      element the separator followed by the element. */
  function FormatString(vec: seq<Usize>): string {
    if vec == [] then "" else NatToDecimal(vec[0]) + FormatTail(vec[1..])
  }

  function FormatTail(vec: seq<Usize>): string {
    if vec == [] then "" else [','] + NatToDecimal(vec[0]) + FormatTail(vec[1..])
  }

  /** One more element after a non-empty prefix adds a comma and its digits. */
  lemma JoinStringSnoc(vec: seq<Usize>, v: Usize)
    requires vec != []
    ensures JoinString(vec + [v]) == JoinString(vec) + [','] + NatToDecimal(v)
  {
    assert (vec + [v])[..|vec|] == vec;
    var parts := Renderings(vec + [v]);
    assert parts[..|parts| - 1] == Renderings(vec);
  }

  lemma {:induction false} FormatTailSnoc(vec: seq<Usize>, v: Usize)
    ensures FormatTail(vec + [v]) == FormatTail(vec) + [','] + NatToDecimal(v)
  {
    if vec == [] {
      assert [v][1..] == [];
    } else {
      assert (vec + [v])[1..] == vec[1..] + [v];
      FormatTailSnoc(vec[1..], v);
    }
  }

  /** format_string and join_string render every slice the same way. */
  lemma {:induction false} FormatEqualsJoin(vec: seq<Usize>)
    ensures FormatString(vec) == JoinString(vec)
  {
    if |vec| == 1 {
      assert Renderings(vec) == [NatToDecimal(vec[0])];
    } else if |vec| > 1 {
      var init, v := vec[..|vec| - 1], vec[|vec| - 1];
      assert vec == init + [v];
      FormatEqualsJoin(init);
      assert vec[1..] == init[1..] + [v];
      FormatTailSnoc(init[1..], v);
      JoinStringSnoc(init, v);
    }
  }

  /** plain_string: push a comma unless this is the first element, then the
      element's digits. */
  method PlainString(vec: seq<Usize>) returns (res: string)
    ensures res == JoinString(vec)
  {
    res := "";
    var first := true;
    for i := 0 to |vec|
      invariant first <==> i == 0
      invariant res == JoinString(vec[..i])
    {
      assert vec[..i + 1] == vec[..i] + [vec[i]];
      if !first {
        JoinStringSnoc(vec[..i], vec[i]);
        res := res + [','];
      } else {
        assert Renderings([vec[i]]) == [NatToDecimal(vec[i])];
      }
      first := false;
      res := res + NatToDecimal(vec[i]);
    }
    assert vec[..|vec|] == vec;
  }

  /** prealloc_string: the same loop on a `String::with_capacity(4000)`; the
      capacity is an allocation hint and changes nothing the string holds. */
  method PreallocString(vec: seq<Usize>) returns (res: string)
    ensures res == JoinString(vec)
  {
    res := "";
    var first := true;
    for i := 0 to |vec|
      invariant first <==> i == 0
      invariant res == JoinString(vec[..i])
    {
      assert vec[..i + 1] == vec[..i] + [vec[i]];
      if !first {
        JoinStringSnoc(vec[..i], vec[i]);
        res := res + [','];
      } else {
        assert Renderings([vec[i]]) == [NatToDecimal(vec[i])];
      }
      first := false;
      res := res + NatToDecimal(vec[i]);
    }
    assert vec[..|vec|] == vec;
  }

  /** `str::split(',')`: the maximal comma-free pieces, in order; like Rust,
      the empty string splits into one empty piece. */
  function Split(s: string): (r: seq<string>)
    ensures |r| >= 1
  {
    if s == [] then [""]
    else if s[0] == ',' then [""] + Split(s[1..])
    else var rest := Split(s[1..]); [[s[0]] + rest[0]] + rest[1..]
  }

  lemma {:induction false} SplitCommaFree(s: string)
    requires ',' !in s
    ensures Split(s) == [s]
  {
    if s != [] {
      SplitCommaFree(s[1..]);
      assert [s[0]] + s[1..] == s;
    }
  }

  /** Splitting at a comma splits the two sides independently. */
  lemma {:induction false} SplitAtComma(a: string, b: string)
    ensures Split(a + [','] + b) == Split(a) + Split(b)
  {
    if a == [] {
      assert a + [','] + b == [','] + b;
      assert ([','] + b)[1..] == b;
    } else {
      assert (a + [','] + b)[0] == a[0];
      assert (a + [','] + b)[1..] == a[1..] + [','] + b;
      SplitAtComma(a[1..], b);
    }
  }

  /** Splitting the output on ',' gives back the element renderings in order.
      (The empty slice renders as "", which splits into [""].) */
  lemma {:induction false} SplitJoinString(vec: seq<Usize>)
    requires vec != []
    ensures Split(JoinString(vec)) == Renderings(vec)
  {
    if |vec| == 1 {
      assert Renderings(vec) == [NatToDecimal(vec[0])];
      SplitCommaFree(NatToDecimal(vec[0]));
    } else {
      var init, v := vec[..|vec| - 1], vec[|vec| - 1];
      assert vec == init + [v];
      JoinStringSnoc(init, v);
      SplitJoinString(init);
      SplitAtComma(JoinString(init), NatToDecimal(v));
      SplitCommaFree(NatToDecimal(v));
    }
  }

  function CommaCount(s: string): nat {
    multiset(s)[',']
  }

  /** Sum of the digit counts of the elements. */
  function DigitTotal(vec: seq<Usize>): nat {
    if vec == [] then 0
    else DigitTotal(vec[..|vec| - 1]) + |NatToDecimal(vec[|vec| - 1])|
  }

  /** The shape of a rendering of n > 0 elements: n - 1 commas, none first or
      last, and as long as all the digits plus those commas. */
  lemma {:induction false} JoinStringShape(vec: seq<Usize>)
    requires vec != []
    ensures CommaCount(JoinString(vec)) == |vec| - 1
    ensures |JoinString(vec)| == DigitTotal(vec) + |vec| - 1
    ensures JoinString(vec)[0] != ','
    ensures JoinString(vec)[|JoinString(vec)| - 1] != ','
  {
    if |vec| == 1 {
      assert Renderings(vec) == [NatToDecimal(vec[0])];
      assert vec[..0] == [];
    } else {
      var init, v := vec[..|vec| - 1], vec[|vec| - 1];
      assert vec == init + [v];
      JoinStringSnoc(init, v);
      JoinStringShape(init);
      var d := NatToDecimal(v);
      assert multiset(d)[','] == 0;
      assert (JoinString(init) + [','] + d)[0] == JoinString(init)[0];
    }
  }

  /** The bench input renders as "0,1,2,...,999", with 999 commas. */
  lemma BenchCommas()
    ensures CommaCount(JoinString(Range(BenchLen))) == 999
  {
    JoinStringShape(Range(BenchLen));
  }
}
