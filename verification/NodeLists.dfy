/** Node lists in range notation: the printer extract_ranges and the parser setNodeList
    (core/src/CBTFTopology.cpp). */
module NodeLists {
  import opened Sequences

  // ---------------------------------------------------------------- decimal numbers

  predicate IsDigit(c: char) {
    '0' <= c <= '9'
  }

  function Digit(d: nat): (c: char)
    requires d < 10
    ensures IsDigit(c) && c as int - '0' as int == d
  {
    ('0' as int + d) as char
  }

  function Dec(n: nat): (s: string)
    ensures s != ""
  {
    if n < 10 then [Digit(n)] else Dec(n / 10) + [Digit(n % 10)]
  }

  ghost predicate AllDigits(s: string) {
    forall i :: 0 <= i < |s| ==> IsDigit(s[i])
  }

  /** atoi on a string of digits. */
  function Atoi(s: string): nat {
    if s == "" then 0
    else
      var c := s[|s| - 1];
      10 * Atoi(s[..|s| - 1]) + if IsDigit(c) then c as int - '0' as int else 0
  }

  lemma {:induction false} DecFacts(n: nat)
    ensures AllDigits(Dec(n)) && Atoi(Dec(n)) == n
    ensures n > 0 ==> Dec(n)[0] != '0'
  {
    hide Digit;
    if n < 10 {
      AtoiSnoc("", Digit(n));
      assert "" + [Digit(n)] == [Digit(n)];
      assert Dec(n) == [Digit(n)];
    } else {
      DecFacts(n / 10);
      AtoiSnoc(Dec(n / 10), Digit(n % 10));
      assert Dec(n) == Dec(n / 10) + [Digit(n % 10)];
    }
  }

  lemma AtoiSnoc(s: string, c: char)
    requires IsDigit(c)
    ensures Atoi(s + [c]) == 10 * Atoi(s) + (c as int - '0' as int)
  {
    assert (s + [c])[..|s|] == s;
  }

  // ---------------------------------------------------------------- runs

  datatype Run = Run(lo: nat, hi: nat)

  /** One pass over the sorted numbers: extend the last run or start a new one. */
  function RunsOf(nums: seq<nat>): seq<Run> {
    if nums == [] then [] else AddToRuns(RunsOf(nums[..|nums| - 1]), nums[|nums| - 1])
  }

  function AddToRuns(rs: seq<Run>, x: nat): seq<Run> {
    if rs != [] && rs[|rs| - 1].hi + 1 == x
    then rs[..|rs| - 1] + [Run(rs[|rs| - 1].lo, x)]
    else rs + [Run(x, x)]
  }

  function Count(lo: nat, hi: nat): seq<nat>
    decreases hi - lo
  {
    if lo > hi then [] else [lo] + Count(lo + 1, hi)
  }

  function Expand(rs: seq<Run>): seq<nat> {
    if rs == [] then [] else Expand(rs[..|rs| - 1]) + Count(rs[|rs| - 1].lo, rs[|rs| - 1].hi)
  }

  /** Non-empty runs with at least one number missing between one and the next. */
  ghost predicate Maximal(rs: seq<Run>) {
    && (forall i :: 0 <= i < |rs| ==> rs[i].lo <= rs[i].hi)
    && (forall i :: 0 < i < |rs| ==> rs[i - 1].hi + 1 < rs[i].lo)
  }

  lemma {:induction false} CountSnoc(lo: nat, hi: nat)
    requires lo <= hi + 1
    ensures Count(lo, hi + 1) == Count(lo, hi) + [hi + 1]
    decreases hi + 1 - lo
  {
    if lo <= hi {
      CountSnoc(lo + 1, hi);
    } else {
      assert Count(lo + 1, hi + 1) == [];
    }
  }

  lemma ExpandSnoc(rs: seq<Run>, r: Run)
    ensures Expand(rs + [r]) == Expand(rs) + Count(r.lo, r.hi)
  {
    assert (rs + [r])[..|rs|] == rs;
  }

  lemma ExtendLast(rs: seq<Run>)
    requires rs != [] && Maximal(rs)
    ensures var r := rs[|rs| - 1];
            var rs' := rs[..|rs| - 1] + [Run(r.lo, r.hi + 1)];
            Maximal(rs') && Expand(rs') == Expand(rs) + [r.hi + 1]
  {
    hide Expand;
    var front, r := rs[..|rs| - 1], rs[|rs| - 1];
    assert rs == front + [r];
    ExpandSnoc(front, r);
    ExpandSnoc(front, Run(r.lo, r.hi + 1));
    CountSnoc(r.lo, r.hi);
  }

  lemma StartNew(rs: seq<Run>, x: nat)
    requires Maximal(rs) && (rs != [] ==> rs[|rs| - 1].hi + 1 < x)
    ensures Maximal(rs + [Run(x, x)]) && Expand(rs + [Run(x, x)]) == Expand(rs) + [x]
  {
    hide Expand;
    ExpandSnoc(rs, Run(x, x));
    OneNumber(x);
  }

  lemma OneNumber(x: nat)
    ensures Count(x, x) == [x]
  {
    assert Count(x + 1, x) == [];
  }

  /** The runs are the maximal consecutive runs of the numbers. */
  ghost predicate AreRuns(rs: seq<Run>, nums: seq<nat>) {
    Maximal(rs) && Expand(rs) == nums && |rs| <= |nums|
    && (nums != [] ==> rs != [] && rs[|rs| - 1].hi == nums[|nums| - 1])
  }

  lemma {:induction false} RunsAreMaximal(nums: seq<nat>)
    requires Increasing(nums)
    ensures AreRuns(RunsOf(nums), nums)
  {
    hide AreRuns, AddToRuns;
    if nums == [] {
      AreRunsOfNothing();
    } else {
      var front, x := nums[..|nums| - 1], nums[|nums| - 1];
      assert nums == front + [x];
      RunsAreMaximal(front);
      MoreRuns(RunsOf(front), front, x);
    }
  }

  lemma AreRunsOfNothing()
    ensures AreRuns([], [])
  {
  }

  lemma MoreRuns(rs: seq<Run>, front: seq<nat>, x: nat)
    requires AreRuns(rs, front) && (front != [] ==> front[|front| - 1] < x) 
    ensures AreRuns(AddToRuns(rs, x), front + [x])
  {
    hide Maximal, Expand;
    if rs != [] && rs[|rs| - 1].hi + 1 == x {
      ExtendLast(rs);
    } else {
      StartNew(rs, x);
    }
  }

  // ---------------------------------------------------------------- printing

  /** What follows the first number of a run. */
  function Upto(r: Run): string {
    if r.lo == r.hi then "" else "-" + Dec(r.hi)
  }

  function One(r: Run): string {
    Dec(r.lo) + Upto(r)
  }

  function Print(rs: seq<Run>): string {
    if rs == [] then ""
    else if |rs| == 1 then One(rs[0])
    else One(rs[0]) + "," + Print(rs[1..])
  }

  lemma {:induction false} PrintSnoc(rs: seq<Run>, r: Run)
    ensures Print(rs + [r]) == if rs == [] then One(r) else Print(rs) + "," + One(r)
  {
    if rs == [] {
      assert rs + [r] == [r];
    } else {
      assert (rs + [r])[1..] == rs[1..] + [r];
      PrintSnoc(rs[1..], r);
    }
  }

  /** Runs of more than one number. */
  function LongRuns(rs: seq<Run>): nat {
    if rs == [] then 0 else (if rs[0].lo < rs[0].hi then 1 else 0) + LongRuns(rs[1..])
  }

  /** A comma between one run and the next, and a dash in each run of more than one number; all else
      are digits. */
  lemma {:induction false} PrintShape(rs: seq<Run>)
    requires forall i :: 0 <= i < |rs| ==> rs[i].lo <= rs[i].hi
    ensures multiset(Print(rs))[','] == if rs == [] then 0 else |rs| - 1
    ensures multiset(Print(rs))['-'] == LongRuns(rs)
    ensures forall c :: c in Print(rs) ==> IsDigit(c) || c == ',' || c == '-'
  {
    hide One;
    if rs != [] {
      OneShape(rs[0]);
      if |rs| > 1 {
        PrintShape(rs[1..]);
        JoinShape(One(rs[0]), Print(rs[1..]));
      } else {
        assert rs[1..] == [];
      }
    }
  }

  lemma JoinShape(a: string, b: string)
    ensures multiset(a + "," + b)[','] == multiset(a)[','] + 1 + multiset(b)[',']
    ensures multiset(a + "," + b)['-'] == multiset(a)['-'] + multiset(b)['-']
    ensures forall c :: c in a + "," + b <==> c in a || c == ',' || c in b
  {
  }

  lemma OneShape(r: Run)
    requires r.lo <= r.hi
    ensures multiset(One(r))[','] == 0 && multiset(One(r))['-'] == if r.lo < r.hi then 1 else 0
    ensures forall c :: c in One(r) ==> IsDigit(c) || c == '-'
  {
    hide Dec;
    DecFacts(r.lo);
    DecFacts(r.hi);
    assert ',' !in Dec(r.lo) && '-' !in Dec(r.lo) && ',' !in Dec(r.hi) && '-' !in Dec(r.hi);
  }

  /** What has been printed when the last run is still open: all earlier runs, and where it began. */
  function PrintOpen(rs: seq<Run>): string {
    if rs == [] then ""
    else if |rs| == 1 then Dec(rs[0].lo)
    else Print(rs[..|rs| - 1]) + "," + Dec(rs[|rs| - 1].lo)
  }

  lemma CloseLast(rs: seq<Run>)
    requires rs != []
    ensures Print(rs) == PrintOpen(rs) + Upto(rs[|rs| - 1])
  {
    hide Dec, Upto;
    var front, r := rs[..|rs| - 1], rs[|rs| - 1];
    assert rs == front + [r];
    PrintSnoc(front, r);
    if front != [] {
      Associate(Print(front) + ",", Dec(r.lo), Upto(r));
    }
  }

  lemma Associate(a: string, b: string, c: string)
    ensures a + (b + c) == a + b + c
  {
  }

  /** Printing the sorted numbers in one pass. */
  method PrintRanges(nums: seq<nat>) returns (out: string)
    requires Increasing(nums)
    ensures out == Print(RunsOf(nums))
  {
    hide Print, Dec, PrintState, RunsOf;
    out := "";
    var current, count, first := 0, 0, true;
    for i := 0 to |nums|
      invariant first <==> i == 0
      invariant i == 0 ==> count == 0 && out == ""
      invariant i > 0 ==> PrintState(nums[..i], out, current, count)
    {
      var next := nums[i];
      PrintStep(nums[..i], next, out, current, count);
      assert nums[..i + 1] == nums[..i] + [next];
      if first {
        assert nums[..i + 1] == [next] && "" + Dec(next) == Dec(next);
        out := out + Dec(next);
        count := 1;
        first := false;
      } else if next == current + 1 {
        count := count + 1;
      } else {
        if count >= 2 {
          out := out + "-";
        } else {
          out := out + ",";
        }
        if count > 1 {
          out := out + Dec(current);
          out := out + ",";
        }
        out := out + Dec(next);
        count := 1;
      }
      current := next;
    }
    PrintEnd(nums, out, current, count);
    assert nums[..|nums|] == nums;
    if count >= 2 {
      out := out + "-";
      out := out + Dec(current);
    } else if count > 1 {
      out := out + ",";
      out := out + Dec(current);
    }
  }

  /** The numbers of the tokens, in the order of a std::set. */
  function Ordered(tokens: seq<nat>): (nums: seq<nat>)
    ensures Increasing(nums) && forall n: nat :: n in nums <==> n in tokens
  {
    if tokens == [] then []
    else
      assert tokens == tokens[..|tokens| - 1] + [tokens[|tokens| - 1]];
      Insert(Ordered(tokens[..|tokens| - 1]), tokens[|tokens| - 1])
  }

  /** extract_ranges: collect the numbers of the tokens in a set, print them in its order. */
  method ExtractRanges(tokens: seq<nat>) returns (out: string)
    ensures out == Print(RunsOf(Ordered(tokens)))
  {
    var numericNames: seq<nat> := [];
    for i := 0 to |tokens|
      invariant numericNames == Ordered(tokens[..i])
    {
      numericNames := Insert(numericNames, tokens[i]);
      assert tokens[..i + 1][..i] == tokens[..i];
    }
    assert tokens[..|tokens|] == tokens;
    out := PrintRanges(numericNames);
  }

  lemma PrintEnd(nums: seq<nat>, out: string, current: nat, count: nat)
    ensures nums == [] ==> Print(RunsOf(nums)) == ""
    ensures nums != [] && PrintState(nums, out, current, count) ==>
              Print(RunsOf(nums)) == if count >= 2 then out + "-" + Dec(current) else out
  {
    hide Dec, Print;
    if nums == [] {
      NothingPrinted();
    } else if PrintState(nums, out, current, count) {
      CloseLast(RunsOf(nums));
      Associate(out, "-", Dec(current));
    }
  }

  lemma NothingPrinted()
    ensures Print([]) == ""
  {
  }

  /** The printer's variables against the runs so far. */
  ghost predicate PrintState(nums: seq<nat>, out: string, current: nat, count: nat) {
    var rs := RunsOf(nums);
    && rs != [] && out == PrintOpen(rs)
    && rs[|rs| - 1].hi == current && rs[|rs| - 1].lo + count == current + 1 && count > 0
  }

  lemma PrintStep(nums: seq<nat>, next: nat, out: string, current: nat, count: nat)
    requires nums == [] ==> out == ""
    requires nums != [] ==> PrintState(nums, out, current, count)
    ensures nums == [] ==> PrintState([next], Dec(next), next, 1)
    ensures nums != [] && next == current + 1 ==> PrintState(nums + [next], out, next, count + 1)
    ensures nums != [] && next != current + 1 && count < 2 ==> PrintState(nums + [next], out + "," + Dec(next), next, 1)
    ensures nums != [] && next != current + 1 && count >= 2 ==>
              PrintState(nums + [next], out + "-" + Dec(current) + "," + Dec(next), next, 1)
  {
    hide Print, Dec, PrintOpen;
    var rs := RunsOf(nums);
    assert (nums + [next])[..|nums|] == nums;
    if nums == [] {
      assert nums + [next] == [next] && RunsOf(nums) == [];
      assert RunsOf([next]) == [] + [Run(next, next)] == [Run(next, next)];
      OpenFirst(next);
    } else if next == current + 1 {
      OpenSame(rs, next);
    } else {
      OpenNext(rs, next);
      CloseLast(rs);
      Associate(out, "-", Dec(current));
    }
  }

  lemma OpenFirst(x: nat)
    ensures PrintOpen([Run(x, x)]) == Dec(x)
  {
  }

  lemma OpenSame(rs: seq<Run>, x: nat)
    requires rs != []
    ensures PrintOpen(rs[..|rs| - 1] + [Run(rs[|rs| - 1].lo, x)]) == PrintOpen(rs)
  {
    hide Dec, Print;
    var rs' := rs[..|rs| - 1] + [Run(rs[|rs| - 1].lo, x)];
    assert rs'[..|rs'| - 1] == rs[..|rs| - 1];
  }

  lemma OpenNext(rs: seq<Run>, x: nat)
    requires rs != []
    ensures PrintOpen(rs + [Run(x, x)]) == Print(rs) + "," + Dec(x)
  {
    hide Dec, Print;
    var rs' := rs + [Run(x, x)];
    assert rs'[..|rs'| - 1] == rs;
  }

  // ---------------------------------------------------------------- the bracket decoder

  /** The parser's variables that outlive one bracket, and the node list. */
  datatype Parse = Parse(isRange: bool, num1: nat, leadingZero: bool, nodes: seq<string>)

  /** Length of the leading digits. */
  function DigitsLen(s: string): (k: nat)
    ensures k <= |s|
  {
    if s == "" || !IsDigit(s[0]) then 0 else 1 + DigitsLen(s[1..])
  }

  function Zeros(n: int): string
    decreases n
  {
    if n <= 0 then "" else "0" + Zeros(n - 1)
  }

  /** base + padding + number, for each number of a range. */
  function Names(base: string, nums: seq<nat>): seq<string> {
    if nums == [] then [] else [base + Dec(nums[0])] + Names(base, nums[1..])
  }

  /** Padding of the names in a range that ends in num2. */
  function Padding(leadingZero: bool, minLength: nat, num2: nat): string {
    if leadingZero then Zeros(minLength - |Dec(num2)|) else ""
  }

  /** Decode the text between brackets; false if it stops at a character that is not expected. */
  function Decode(base: string, minLength: nat, text: string, p: Parse): (Parse, bool)
    decreases |text|
  {
    if text == "" then (p, true)
    else if text[0] == ',' then Decode(base, minLength, text[1..], p)
    else if !IsDigit(text[0]) then (p, false)
    else
      var k := DigitsLen(text);
      var num, rest := text[..k], text[k..];
      if p.isRange then
        var zero := p.leadingZero || num[0] == '0';
        var names := Names(base + Padding(zero, minLength, Atoi(num)), Count(p.num1, Atoi(num)));
        Decode(base, minLength, rest, Parse(false, p.num1, zero, p.nodes + names))
      else if rest != "" && rest[0] == '-' then
        Decode(base, minLength, rest[1..], p.(isRange := true, num1 := Atoi(num)))
      else
        Decode(base, minLength, rest, p.(num1 := Atoi(num), nodes := p.nodes + [base + num]))
  }

  /** The longest token but the last one. */
  function MinLength(text: string, best: nat, tmp: nat): nat {
    if text == "" then best
    else if text[0] == ',' || text[0] == '-' then MinLength(text[1..], if best < tmp then tmp else best, 0)
    else MinLength(text[1..], best, tmp + 1)
  }

  method ComputeMinLength(text: string) returns (minLength: nat)
    ensures minLength == MinLength(text, 0, 0)
  {
    minLength := 0;
    var tmp := 0;
    for i := 0 to |text|
      invariant MinLength(text[i..], minLength, tmp) == MinLength(text, 0, 0)
    {
      assert text[i..][1..] == text[i + 1..];
      if text[i] == ',' || text[i] == '-' {
        if minLength < tmp {
          minLength := tmp;
        }
        tmp := 0;
      } else {
        tmp := tmp + 1;
      }
    }
    assert text[|text|..] == "";
  }

  /** Decoding from a digit on, one number at a time. */
  lemma DecodeUnfold(base: string, minLength: nat, text: string, i: nat, j: nat, p: Parse)
    requires i < j <= |text| && IsDigit(text[i]) && j - i == DigitsLen(text[i..])
    ensures var num := text[i..j];
            Decode(base, minLength, text[i..], p) ==
            if p.isRange then
              var zero := p.leadingZero || num[0] == '0';
              var names := Names(base + Padding(zero, minLength, Atoi(num)), Count(p.num1, Atoi(num)));
              Decode(base, minLength, text[j..], Parse(false, p.num1, zero, p.nodes + names))
            else if j < |text| && text[j] == '-' then
              Decode(base, minLength, text[j + 1..], p.(isRange := true, num1 := Atoi(num)))
            else
              Decode(base, minLength, text[j..], p.(num1 := Atoi(num), nodes := p.nodes + [base + num]))
  {
    hide Atoi, Names, Count, Padding;
    assert text[i..][..j - i] == text[i..j] && text[i..][j - i..] == text[j..];
    if j < |text| {
      assert text[j..][1..] == text[j + 1..];
    }
  }

  /** The decoding loop, index by index. */
  method DecodeNodes(base: string, text: string, p0: Parse) returns (p: Parse, ok: bool)
    ensures (p, ok) == Decode(base, MinLength(text, 0, 0), text, p0)
  {
    hide DigitsLen, Atoi, Names, Count, Padding, MinLength;
    var minLength := ComputeMinLength(text);
    p := p0;
    var i := 0;
    assert text[0..] == text;
    while i < |text|
      invariant i <= |text|
      invariant Decode(base, minLength, text[i..], p) == Decode(base, minLength, text, p0)
      decreases |text| - i
    {
      if text[i] == ',' {
        assert text[i..][1..] == text[i + 1..];
        i := i + 1;
        continue;
      }
      if !IsDigit(text[i]) {
        return p, false;
      }
      var start := i;
      i := SkipDigits(text, i);
      var num := text[start..i];
      DecodeUnfold(base, minLength, text, start, i, p);
      if p.isRange {
        var zero := p.leadingZero || num[0] == '0';
        var num2 := Atoi(num);
        var names := PushRange(base + Padding(zero, minLength, num2), p.num1, num2);
        p := Parse(false, p.num1, zero, p.nodes + names);
      } else {
        p := p.(num1 := Atoi(num));
        if i < |text| && text[i] == '-' {
          p := p.(isRange := true);
          i := i + 1;
          continue;
        }
        p := p.(nodes := p.nodes + [base + num]);
      }
    }
    assert text[i..] == "";
    return p, true;
  }

  method SkipDigits(text: string, start: nat) returns (i: nat)
    requires start < |text| && IsDigit(text[start])
    ensures start < i <= |text| && i - start == DigitsLen(text[start..])
  {
    i := start;
    while i < |text| && IsDigit(text[i])
      invariant start <= i <= |text|
      invariant i - start + DigitsLen(text[i..]) == DigitsLen(text[start..])
    {
      assert text[i..][1..] == text[i + 1..];
      i := i + 1;
    }
  }

  method PushRange(base: string, num1: nat, num2: nat) returns (names: seq<string>)
    ensures names == Names(base, Count(num1, num2))
  {
    names := [];
    var j := num1;
    while j <= num2
      invariant names + Names(base, Count(j, num2)) == Names(base, Count(num1, num2))
      decreases num2 + 1 - j
    {
      assert Count(j, num2)[1..] == Count(j + 1, num2);
      names := names + [base + Dec(j)];
      j := j + 1;
    }
  }

  // ---------------------------------------------------------------- decoding what was printed

  lemma {:induction false} DigitsLenOf(d: string, rest: string)
    requires AllDigits(d) && (rest == "" || !IsDigit(rest[0]))
    ensures DigitsLen(d + rest) == |d|
  {
    if d == "" {
      assert d + rest == rest;
    } else {
      assert (d + rest)[1..] == d[1..] + rest;
      DigitsLenOf(d[1..], rest);
    }
  }

  /** After a number comes the end, a comma or a dash. */
  ghost predicate Ends(rest: string) {
    rest == "" || rest[0] == ',' || rest[0] == '-'
  }

  lemma DecodeNumber(base: string, minLength: nat, n: nat, rest: string, p: Parse)
    requires Ends(rest)
    ensures p.isRange && n > 0 && !p.leadingZero ==>
              Decode(base, minLength, Dec(n) + rest, p)
              == Decode(base, minLength, rest, Parse(false, p.num1, false, p.nodes + Names(base, Count(p.num1, n))))
    ensures !p.isRange && rest != "" && rest[0] == '-' ==>
              Decode(base, minLength, Dec(n) + rest, p)
              == Decode(base, minLength, rest[1..], p.(isRange := true, num1 := n))
    ensures !p.isRange && (rest == "" || rest[0] == ',') ==>
              Decode(base, minLength, Dec(n) + rest, p)
              == Decode(base, minLength, rest, p.(num1 := n, nodes := p.nodes + [base + Dec(n)]))
  {
    var text := Dec(n) + rest;
    DecFacts(n);
    DigitsLenOf(Dec(n), rest);
    assert text[..|Dec(n)|] == Dec(n) && text[|Dec(n)|..] == rest;
    assert base + "" == base;
  }

  lemma DecodeRun(base: string, minLength: nat, r: Run, rest: string, p: Parse)
    requires r.lo <= r.hi && (rest == "" || rest[0] == ',') && !p.isRange && !p.leadingZero
    ensures Decode(base, minLength, One(r) + rest, p)
         == Decode(base, minLength, rest, Parse(false, r.lo, false, p.nodes + Names(base, Count(r.lo, r.hi))))
  {
    hide Decode;
    if r.lo == r.hi {
      DecodeNumber(base, minLength, r.lo, rest, p);
      OneNumber(r.lo);
      assert Names(base, [r.lo]) == [base + Dec(r.lo)];
      assert One(r) == Dec(r.lo) + "" == Dec(r.lo);
    } else {
      var tail := "-" + (Dec(r.hi) + rest);
      assert One(r) + rest == Dec(r.lo) + tail;
      DecodeNumber(base, minLength, r.lo, tail, p);
      assert tail[1..] == Dec(r.hi) + rest;
      DecodeNumber(base, minLength, r.hi, rest, p.(isRange := true, num1 := r.lo));
    }
  }

  lemma {:induction false} NamesConcat(base: string, a: seq<nat>, b: seq<nat>)
    ensures Names(base, a + b) == Names(base, a) + Names(base, b)
  {
    if a == [] {
      assert a + b == b;
    } else {
      assert (a + b)[1..] == a[1..] + b;
      NamesConcat(base, a[1..], b);
    }
  }

  /** Numbers of runs, front to back. */
  function Numbers(rs: seq<Run>): seq<nat> {
    if rs == [] then [] else Count(rs[0].lo, rs[0].hi) + Numbers(rs[1..])
  }

  lemma {:induction false} NumbersSnoc(rs: seq<Run>, r: Run)
    ensures Numbers(rs + [r]) == Numbers(rs) + Count(r.lo, r.hi)
  {
    if rs == [] {
      assert rs + [r] == [r] && [r][1..] == [];
    } else {
      assert (rs + [r])[1..] == rs[1..] + [r];
      NumbersSnoc(rs[1..], r);
    }
  }

  lemma {:induction false} NumbersAreExpanded(rs: seq<Run>)
    ensures Numbers(rs) == Expand(rs)
  {
    if rs != [] {
      var front := rs[..|rs| - 1];
      NumbersAreExpanded(front);
      assert rs == front + [rs[|rs| - 1]];
      NumbersSnoc(front, rs[|rs| - 1]);
    }
  }

  /** All the printed runs are decoded, and the parser is left as it was found. */
  ghost predicate Decoded(base: string, minLength: nat, text: string, p: Parse, nums: seq<nat>) {
    var (q, ok) := Decode(base, minLength, text, p);
    ok && !q.isRange && !q.leadingZero && q.nodes == p.nodes + Names(base, nums)
  }

  lemma {:induction false} DecodePrinted(base: string, minLength: nat, rs: seq<Run>, p: Parse)
    requires forall i :: 0 <= i < |rs| ==> rs[i].lo <= rs[i].hi
    requires !p.isRange && !p.leadingZero
    ensures Decoded(base, minLength, Print(rs), p, Numbers(rs))
  {
    hide One, Decoded, Decode, Names, Count;
    if rs == [] {
      DecodedNothing(base, minLength, p);
    } else {
      var r, tail := rs[0], rs[1..];
      var rest := if tail == [] then "" else "," + Print(tail);
      var first := Count(r.lo, r.hi);
      var q := Parse(false, r.lo, false, p.nodes + Names(base, first));
      DecodePrinted(base, minLength, tail, q);
      DecodeRun(base, minLength, r, rest, p);
      DecodeRest(base, minLength, tail, q);
      assert Print(rs) == One(r) + rest;
      DecodedMore(base, minLength, Print(rs), Print(tail), p, q, first, Numbers(tail));
    }
  }

  lemma DecodedNothing(base: string, minLength: nat, p: Parse)
    requires !p.isRange && !p.leadingZero
    ensures Decoded(base, minLength, "", p, [])
  {
    assert p.nodes + [] == p.nodes;
  }

  lemma DecodedMore(base: string, minLength: nat, text: string, text': string, p: Parse, q: Parse,
                    first: seq<nat>, nums: seq<nat>)
    requires Decode(base, minLength, text, p) == Decode(base, minLength, text', q)
    requires Decoded(base, minLength, text', q, nums) && q.nodes == p.nodes + Names(base, first)
    ensures Decoded(base, minLength, text, p, first + nums)
  {
    hide Decode, Names;
    NamesConcat(base, first, nums);
    assert p.nodes + (Names(base, first) + Names(base, nums)) == p.nodes + Names(base, first) + Names(base, nums);
  }

  lemma DecodeRest(base: string, minLength: nat, tail: seq<Run>, q: Parse)
    ensures Decode(base, minLength, if tail == [] then "" else "," + Print(tail), q)
              == Decode(base, minLength, Print(tail), q)
  {
    if tail != [] {
      assert ("," + Print(tail))[1..] == Print(tail);
    }
  }

  // ---------------------------------------------------------------- the list of groups

  /** find_first_of: the first position, or -1 for npos. */
  function Find(s: string, c: char): (k: int)
    ensures -1 <= k < |s|
    ensures k >= 0 ==> s[k] == c && c !in s[..k]
    ensures k == -1 <==> c !in s
  {
    if s == "" then -1
    else if s[0] == c then 0
    else
      var k := Find(s[1..], c);
      assert s == [s[0]] + s[1..];
      if k == -1 then -1 else
      assert s[..k + 1] == [s[0]] + s[1..][..k]; k + 1
  }

  /** Where the first group of the list ends. An unclosed bracket ends at position 0: npos + 1. */
  function FinalPos(list: string): (k: nat)
    ensures k <= |list|
  {
    var open, close, comma := Find(list, '['), Find(list, ']'), Find(list, ',');
    if open == -1 && comma == -1 then |list|
    else if comma != -1 && (open == -1 || comma < open) then comma
    else close + 1
  }

  /** One group: a single node, or a machine name and the text between the brackets. */
  function ParseGroup(nodes: string, p: Parse): (Parse, bool) {
    var open, close := Find(nodes, '['), Find(nodes, ']');
    if open == -1 && close == -1 then (p.(nodes := p.nodes + [nodes]), true)
    else
      var text := if close < open + 1 then nodes[open + 1..] else nodes[open + 1..close];
      var base := if open == -1 then nodes else nodes[..open];
      Decode(base, MinLength(text, 0, 0), text, p)
  }

  function ParseList(list: string, p: Parse): Parse
    decreases |list|
  {
    var final := FinalPos(list);
    var (q, ok) := ParseGroup(list[..final], p);
    if !ok || final >= |list| then q else ParseList(list[final + 1..], q)
  }

  class CBTFTopology {
    var nodelist: seq<string>

    constructor ()
      ensures nodelist == []
    {
      nodelist := [];
    }

    method SetNodeList(nodeList: string)
      modifies this
      ensures nodelist == ParseList(nodeList, Parse(false, 0, false, old(nodelist))).nodes
    {
      hide FinalPos, ParseGroup;
      var list, p := nodeList, Parse(false, 0, false, nodelist);
      while true
        invariant ParseList(list, p) == ParseList(nodeList, Parse(false, 0, false, old(nodelist)))
        invariant nodelist == p.nodes
        decreases |list|
      {
        var final := FinalPos(list);
        var ok;
        p, ok := ParseNodes(list[..final], p);
        nodelist := p.nodes;
        if !ok || final >= |list| {
          return;
        }
        list := list[final + 1..];
      }
    }
  }

  method ParseNodes(nodes: string, p0: Parse) returns (p: Parse, ok: bool)
    ensures (p, ok) == ParseGroup(nodes, p0)
  {
    var open, close := Find(nodes, '['), Find(nodes, ']');
    if open == -1 && close == -1 {
      return p0.(nodes := p0.nodes + [nodes]), true;
    }
    var text := if close < open + 1 then nodes[open + 1..] else nodes[open + 1..close];
    var base := if open == -1 then nodes else nodes[..open];
    p, ok := DecodeNodes(base, text, p0);
  }

  // ---------------------------------------------------------------- the round trip

  datatype Group = Single(name: string) | Ranged(prefix: string, nums: seq<nat>)

  ghost predicate Plain(s: string) {
    '[' !in s && ']' !in s && ',' !in s
  }

  ghost predicate GoodGroup(g: Group) {
    match g
    case Single(name) => Plain(name)
    case Ranged(prefix, nums) => Plain(prefix) && Increasing(nums)
  }

  function Show(g: Group): string {
    match g
    case Single(name) => name
    case Ranged(prefix, nums) => prefix + "[" + Print(RunsOf(nums)) + "]"
  }

  function ShowAll(gs: seq<Group>): string {
    if gs == [] then ""
    else if |gs| == 1 then Show(gs[0])
    else Show(gs[0]) + "," + ShowAll(gs[1..])
  }

  function Named(g: Group): seq<string> {
    match g
    case Single(name) => [name]
    case Ranged(prefix, nums) => Names(prefix, nums)
  }

  function NamedAll(gs: seq<Group>): seq<string> {
    if gs == [] then [] else Named(gs[0]) + NamedAll(gs[1..])
  }

  /** The parser is back at rest with these nodes added. */
  ghost predicate Added(p: Parse, q: Parse, names: seq<string>) {
    !q.isRange && !q.leadingZero && q.nodes == p.nodes + names
  }

  /** What is printed between brackets has no bracket in it. */
  lemma {:induction false} PrintNoBracket(rs: seq<Run>)
    ensures '[' !in Print(rs) && ']' !in Print(rs)
  {
    hide One;
    if rs != [] {
      OneNoBracket(rs[0]);
      PrintNoBracket(rs[1..]);
    }
  }

  lemma OneNoBracket(r: Run)
    ensures '[' !in One(r) && ']' !in One(r)
  {
    hide Dec;
    DecFacts(r.lo);
    DecFacts(r.hi);
  }

  lemma {:induction false} FindIn(a: string, c: char, b: string)
    requires c !in a
    ensures Find(a + [c] + b, c) == |a|
  {
    if a != "" {
      assert (a + [c] + b)[1..] == a[1..] + [c] + b;
      FindIn(a[1..], c, b);
    }
  }

  lemma {:induction false} FindAfter(a: string, c: char, b: string)
    requires c !in a
    ensures Find(a + b, c) == -1 || Find(a + b, c) >= |a|
  {
    if a != "" {
      assert (a + b)[1..] == a[1..] + b;
      FindAfter(a[1..], c, b);
    }
  }

  lemma ShownSingle(name: string, rest: string)
    requires Plain(name) && (rest == "" || rest[0] == ',')
    ensures FinalPos(name + rest) == |name|
  {
    hide Find;
    if rest == "" {
      assert name + rest == name;
    } else {
      assert name + rest == name + [','] + rest[1..];
      FindIn(name, ',', rest[1..]);
      FindAfter(name, '[', rest);
    }
  }

  lemma ShownRanged(prefix: string, text: string, rest: string)
    requires Plain(prefix) && ']' !in text
    ensures FinalPos(prefix + "[" + text + "]" + rest) == |prefix + "[" + text + "]"|
  {
    hide Find;
    var list, inside := prefix + "[" + text + "]" + rest, text + "]" + rest;
    assert list == prefix + ['['] + inside;
    FindIn(prefix, '[', inside);
    FindIn(prefix + "[" + text, ']', rest);
    assert list == prefix + ("[" + inside);
    FindAfter(prefix, ',', "[" + inside);
  }

  lemma ShownGroup(g: Group, rest: string)
    requires GoodGroup(g) && (rest == "" || rest[0] == ',')
    ensures FinalPos(Show(g) + rest) == |Show(g)|
  {
    hide Print, RunsOf, FinalPos;
    match g {
      case Single(name) =>
        ShownSingle(name, rest);
      case Ranged(prefix, nums) =>
        PrintNoBracket(RunsOf(nums));
        ShownRanged(prefix, Print(RunsOf(nums)), rest);
    }
  }

  lemma ParseShown(g: Group, p: Parse)
    requires GoodGroup(g) && !p.isRange && !p.leadingZero
    ensures var (q, ok) := ParseGroup(Show(g), p); ok && Added(p, q, Named(g))
  {
    match g {
      case Single(name) =>
      case Ranged(prefix, nums) =>
        ParseRanged(prefix, nums, p);
    }
  }

  lemma ParseRanged(prefix: string, nums: seq<nat>, p: Parse)
    requires Plain(prefix) && Increasing(nums) && !p.isRange && !p.leadingZero
    ensures var (q, ok) := ParseGroup(Show(Ranged(prefix, nums)), p); ok && Added(p, q, Names(prefix, nums))
  {
    hide Print, RunsOf, Decode, Numbers;
    var rs := RunsOf(nums);
    var text := Print(rs);
    var nodes := prefix + "[" + text + "]";
    PrintNoBracket(rs);
    assert nodes == prefix + ['['] + (text + "]");
    FindIn(prefix, '[', text + "]");
    assert nodes == (prefix + "[" + text) + [']'] + "";
    FindIn(prefix + "[" + text, ']', "");
    assert nodes[..|prefix|] == prefix && nodes[|prefix| + 1..|nodes| - 1] == text;
    RunsAreMaximal(nums);
    DecodePrinted(prefix, MinLength(text, 0, 0), rs, p);
    NumbersAreExpanded(rs);
  }

  /** Parsing the printed groups gives their names, in order. */
  lemma {:induction false} ParsePrinted(gs: seq<Group>, p: Parse)
    requires gs != [] && (forall i :: 0 <= i < |gs| ==> GoodGroup(gs[i]))
    requires !p.isRange && !p.leadingZero
    ensures Added(p, ParseList(ShowAll(gs), p), NamedAll(gs))
  {
    hide ParseGroup, FinalPos, GoodGroup, Show, Named;
    var g, tail := gs[0], gs[1..];
    var rest := if tail == [] then "" else "," + ShowAll(tail);
    var list := Show(g) + rest;
    assert ShowAll(gs) == list;
    ShownGroup(g, rest);
    ParseShown(g, p);
    assert list[..|Show(g)|] == Show(g);
    var q := ParseGroup(Show(g), p).0;
    if tail != [] {
      assert list[|Show(g)| + 1..] == ShowAll(tail);
      ParsePrinted(tail, q);
      assert p.nodes + (Named(g) + NamedAll(tail)) == p.nodes + Named(g) + NamedAll(tail);
    } else {
      assert Named(g) + [] == Named(g);
    }
  }
}
