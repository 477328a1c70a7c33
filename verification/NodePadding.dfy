/** Leading zeros in node ranges such as mu[0001-1594]: what the padding is meant to do, and when the
    parser does it (core/src/CBTFTopology.cpp, setNodeList). */
module NodePadding {
  import opened NodeLists

  // ---------------------------------------------------------------- the width of a token

  ghost predicate IsSeparator(c: char) {
    c == ',' || c == '-'
  }

  /** A stretch of the text without separators, up to a separator. */
  ghost predicate Token(text: string, i: nat, j: nat) {
    && i <= j < |text| && IsSeparator(text[j]) && (i == 0 || IsSeparator(text[i - 1]))
    && forall k :: i <= k < j ==> !IsSeparator(text[k])
  }

  /** best is the length of the longest token that ends before n, 0 if there is none. */
  ghost predicate Longest(text: string, n: nat, best: nat) {
    && (forall i: nat, j: nat :: j < n && Token(text, i, j) ==> j - i <= best)
    && (best == 0 || exists i: nat, j: nat :: j < n && Token(text, i, j) && j - i == best)
  }

  lemma LongestNext(text: string, n: nat, best: nat, tmp: nat)
    requires n < |text| && tmp <= n && Longest(text, n, best)
    requires (tmp == n || IsSeparator(text[n - tmp - 1])) && forall k :: n - tmp <= k < n ==> !IsSeparator(text[k])
    ensures Longest(text, n + 1, if IsSeparator(text[n]) && best < tmp then tmp else best)
  {
    if IsSeparator(text[n]) {
      assert Token(text, n - tmp, n);
      forall i: nat | Token(text, i, n)
        ensures n - i == tmp
      {
      }
    }
  }

  lemma {:induction false} MinLengthFrom(text: string, n: nat, best: nat, tmp: nat)
    requires n <= |text| && tmp <= n && Longest(text, n, best)
    requires (tmp == n || IsSeparator(text[n - tmp - 1])) && forall k :: n - tmp <= k < n ==> !IsSeparator(text[k])
    ensures Longest(text, |text|, MinLength(text[n..], best, tmp))
    decreases |text| - n
  {
    hide Longest;
    if n < |text| {
      assert text[n..][1..] == text[n + 1..];
      LongestNext(text, n, best, tmp);
      if IsSeparator(text[n]) {
        MinLengthFrom(text, n + 1, if best < tmp then tmp else best, 0);
      } else {
        MinLengthFrom(text, n + 1, best, tmp + 1);
      }
    }
  }

  /** The width computed for the padding is that of the longest token but the last one. */
  lemma MinLengthIs(text: string)
    ensures Longest(text, |text|, MinLength(text, 0, 0))
  {
    assert text[0..] == text;
    MinLengthFrom(text, 0, 0, 0);
  }

  // ---------------------------------------------------------------- numbers and their digits

  lemma {:induction false} DecMonotone(a: nat, b: nat)
    requires a <= b
    ensures |Dec(a)| <= |Dec(b)|
  {
    if b >= 10 && a >= 10 {
      DecMonotone(a / 10, b / 10);
    }
  }

  /** A number has no more digits than the text it was read from, and as many if that has no leading zero. */
  lemma {:induction false} DigitsOfNumber(s: string)
    requires AllDigits(s) && s != ""
    ensures |Dec(Atoi(s))| <= |s|
    ensures s[0] != '0' ==> |Dec(Atoi(s))| == |s| && Atoi(s) > 0
  {
    var front, c := s[..|s| - 1], s[|s| - 1];
    var d := c as int - '0' as int;
    if front == "" {
      assert s == [c];
    } else {
      DigitsOfNumber(front);
      var a := Atoi(front);
      assert Atoi(s) == 10 * a + d;
      if a > 0 {
        assert (10 * a + d) / 10 == a;
      }
    }
  }

  lemma {:induction false} ZerosLength(n: int)
    ensures |Zeros(n)| == if n <= 0 then 0 else n
  {
    if n > 0 {
      ZerosLength(n - 1);
    }
  }

  /** The number in exactly so many digits, with leading zeros. */
  function Wide(width: nat, n: nat): string {
    Zeros(width - |Dec(n)|) + Dec(n)
  }

  function WideNames(base: string, width: nat, nums: seq<nat>): seq<string> {
    if nums == [] then [] else [base + Wide(width, nums[0])] + WideNames(base, width, nums[1..])
  }

  // ---------------------------------------------------------------- one range

  lemma RangeWidth(lo: string, hi: string)
    requires AllDigits(lo) && AllDigits(hi)
    ensures MinLength(lo + "-" + hi, 0, 0) == |lo|
  {
    var text := lo + "-" + hi;
    MinLengthIs(text);
    assert text[|lo|] == '-';
    assert forall k :: 0 <= k < |lo| ==> text[k] == lo[k];
    assert forall k :: |lo| < k < |text| ==> text[k] == hi[k - |lo| - 1];
    assert Token(text, 0, |lo|);
  }

  /** What the parser makes of a range lo-hi. */
  lemma RangeDecoded(base: string, minLength: nat, lo: string, hi: string, p: Parse)
    requires AllDigits(lo) && AllDigits(hi) && lo != "" && hi != "" && !p.isRange
    ensures var zero := p.leadingZero || hi[0] == '0';
            Decode(base, minLength, lo + "-" + hi, p)
            == (Parse(false, Atoi(lo), zero,
                      p.nodes + Names(base + Padding(zero, minLength, Atoi(hi)), Count(Atoi(lo), Atoi(hi)))), true)
  {
    hide Atoi, Padding, Names, Count, DigitsLen;
    var text, rest := lo + "-" + hi, "-" + hi;
    assert text == lo + rest;
    DigitsLenOf(lo, rest);
    assert text[..|lo|] == lo && text[|lo|..] == rest && rest[1..] == hi;
    assert hi + "" == hi;
    DigitsLenOf(hi, "");
    assert hi[..|hi|] == hi && hi[|hi|..] == "";
    assert IsDigit(text[0]) && IsDigit(hi[0]);
    var q := p.(isRange := true, num1 := Atoi(lo));
    assert Decode(base, minLength, text, p) == Decode(base, minLength, hi, q);
    var zero := p.leadingZero || hi[0] == '0';
    var names := Names(base + Padding(zero, minLength, Atoi(hi)), Count(Atoi(lo), Atoi(hi)));
    assert Decode(base, minLength, hi, q)
           == Decode(base, minLength, "", Parse(false, Atoi(lo), zero, p.nodes + names));
  }

  /** Whether or not a leading zero was noticed, the zeros put in are those the last number needs. */
  lemma PaddingOfLast(leadingZero: bool, hi: string)
    requires AllDigits(hi) && hi != ""
    ensures Padding(leadingZero || hi[0] == '0', |hi|, Atoi(hi)) == Zeros(|hi| - |Dec(Atoi(hi))|)
  {
    hide Atoi, Dec;
    DigitsOfNumber(hi);
  }

  /** Zeros for the last number in front of each number, against zeros for each: the same exactly if the
      first number has as many digits as the last. */
  lemma {:induction false} SameNamesIff(base: string, width: nat, lo: nat, hi: nat)
    requires lo <= hi && |Dec(hi)| <= width
    ensures Names(base + Zeros(width - |Dec(hi)|), Count(lo, hi)) == WideNames(base, width, Count(lo, hi))
            <==> |Dec(lo)| == |Dec(hi)|
    decreases hi - lo
  {
    var pad, nums := Zeros(width - |Dec(hi)|), Count(lo, hi);
    DecMonotone(lo, hi);
    ZerosLength(width - |Dec(hi)|);
    ZerosLength(width - |Dec(lo)|);
    assert nums == [lo] + Count(lo + 1, hi) && nums[1..] == Count(lo + 1, hi);
    var here, there := base + pad + Dec(lo), base + Wide(width, lo);
    assert |here| == |base| + width - |Dec(hi)| + |Dec(lo)| && |there| == |base| + width;
    assert |Dec(lo)| == |Dec(hi)| ==> here == there;
    if lo < hi {
      SameNamesIff(base, width, lo + 1, hi);
      DecMonotone(lo, lo + 1);
      DecMonotone(lo + 1, hi);
    } else {
      assert Count(lo + 1, hi) == [];
    }
    SplitNames(base + pad, nums);
    SplitWide(base, width, nums);
    if |Dec(lo)| != |Dec(hi)| {
      assert Names(base + pad, nums)[0] != WideNames(base, width, nums)[0];
    }
  }

  lemma SplitNames(base: string, nums: seq<nat>)
    requires nums != []
    ensures Names(base, nums) == [base + Dec(nums[0])] + Names(base, nums[1..])
  {
  }

  lemma SplitWide(base: string, width: nat, nums: seq<nat>)
    requires nums != []
    ensures WideNames(base, width, nums) == [base + Wide(width, nums[0])] + WideNames(base, width, nums[1..])
  {
  }

  lemma ParseOneRange(base: string, text: string, p: Parse)
    requires Plain(base) && '[' !in text && ']' !in text
    ensures ParseList(base + "[" + text + "]", p) == Decode(base, MinLength(text, 0, 0), text, p).0
  {
    hide Decode, Find;
    var nodes := base + "[" + text + "]";
    ShownRanged(base, text, "");
    assert nodes + "" == nodes && nodes[..|nodes|] == nodes;
    assert nodes == base + ['['] + (text + "]");
    FindIn(base, '[', text + "]");
    assert nodes == (base + "[" + text) + [']'] + "";
    FindIn(base + "[" + text, ']', "");
    assert nodes[..|base|] == base && nodes[|base| + 1..|nodes| - 1] == text;
  }

  /** The names the parser gives a range. */
  lemma RangeNames(base: string, lo: string, hi: string, p: Parse)
    requires Plain(base) && AllDigits(lo) && AllDigits(hi) && |lo| == |hi| > 0 && !p.isRange
    ensures var list := base + "[" + (lo + "-" + hi) + "]";
            ParseList(list, p).nodes
            == p.nodes + Names(base + Zeros(|hi| - |Dec(Atoi(hi))|), Count(Atoi(lo), Atoi(hi)))
  {
    hide Decode, Atoi, ParseList, Padding, MinLength, Names, Count, Dec, Zeros;
    var text := lo + "-" + hi;
    assert forall k :: 0 <= k < |text| ==> text[k] == '-' || IsDigit(text[k]);
    ParseOneRange(base, text, p);
    RangeWidth(lo, hi);
    RangeDecoded(base, |lo|, lo, hi, p);
    PaddingOfLast(p.leadingZero, hi);
  }

  /** PADDING. A range whose two ends are written with the same number of digits, as in mu[0001-1594], is
      meant to give names with that many digits each. It does exactly if the range is empty, or its first
      and last numbers have equally many digits without their leading zeros. */
  lemma PaddedIff(base: string, lo: string, hi: string, p: Parse)
    requires Plain(base) && AllDigits(lo) && AllDigits(hi) && |lo| == |hi| > 0 && !p.isRange
    ensures var list := base + "[" + (lo + "-" + hi) + "]";
            ParseList(list, p).nodes == p.nodes + WideNames(base, |lo|, Count(Atoi(lo), Atoi(hi)))
            <==> Atoi(lo) > Atoi(hi) || |Dec(Atoi(lo))| == |Dec(Atoi(hi))|
  {
    hide Atoi, ParseList, Names, WideNames, Count, Dec, Zeros;
    var a, b := Atoi(lo), Atoi(hi);
    RangeNames(base, lo, hi, p);
    DigitsOfNumber(hi);
    if a <= b {
      SameNamesIff(base, |lo|, a, b);
    } else {
      EmptyRange(base, base + Zeros(|hi| - |Dec(b)|), |lo|, a, b);
    }
    SameTail(p.nodes, Names(base + Zeros(|hi| - |Dec(b)|), Count(a, b)), WideNames(base, |lo|, Count(a, b)));
  }

  lemma EmptyRange(base: string, padded: string, width: nat, a: nat, b: nat)
    requires a > b
    ensures Names(padded, Count(a, b)) == [] == WideNames(base, width, Count(a, b))
  {
  }

  lemma SameTail(a: seq<string>, b: seq<string>, c: seq<string>)
    ensures a + b == a + c <==> b == c
  {
    if a + b == a + c {
      assert b == (a + b)[|a|..] && c == (a + c)[|a|..];
    }
  }

  /** The example in the source, mu[0001-1594], does not give mu0001 and so on. */
  lemma ExampleIsNotPadded()
    ensures ParseList("mu[0001-1594]", Parse(false, 0, false, [])).nodes != WideNames("mu", 4, Count(1, 1594))
  {
    hide ParseList, WideNames, Count;
    var p := Parse(false, 0, false, []);
    assert "mu" + "[" + ("0001" + "-" + "1594") + "]" == "mu[0001-1594]";
    ExampleNumbers();
    assert |Dec(1)| == 1 && |Dec(15)| == 2 && |Dec(159)| == 3 && |Dec(1594)| == 4;
    PaddedIff("mu", "0001", "1594", p);
    assert [] + WideNames("mu", 4, Count(1, 1594)) == WideNames("mu", 4, Count(1, 1594));
  }

  lemma ExampleNumbers()
    ensures Atoi("0001") == 1 && Atoi("1594") == 1594
  {
    assert "0001"[..3] == "000" && "000"[..2] == "00" && "00"[..1] == "0";
    assert Atoi("00") == 0 && Atoi("000") == 0;
    assert "1594"[..3] == "159" && "159"[..2] == "15" && "15"[..1] == "1";
    assert Atoi("15") == 15 && Atoi("159") == 159;
  }
}
