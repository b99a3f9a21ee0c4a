/** Which texts a cron field accepts, documented or not, and what they are read as. */
module CronTexts {
  import opened Wrappers
  import opened CronField

  // ---------------------------------------------------------------- exactly the texts that are accepted

  /** Text that std::stoi takes: white space, perhaps a sign, some digits, and then anything but a digit. */
  ghost predicate NumberParts(s: string, gap: string, sign: string, digits: string, tail: string) {
    && s == gap + sign + digits + tail
    && Blank(gap) && (sign == "" || sign == "+" || sign == "-")
    && digits != [] && AllDigits(digits) && (tail == [] || !IsDigit(tail[0]))
  }

  function SignedNumber(sign: string, digits: string): int
    requires AllDigits(digits)
  {
    if sign == "-" then 0 - Number(digits) else Number(digits)
  }

  predicate IsInt(v: int) {
    -MAX_INT - 1 <= v <= MAX_INT
  }

  /** The text stands for the number, however much follows it. */
  ghost predicate Spells(s: string, v: int) {
    exists gap, sign, digits, tail :: NumberParts(s, gap, sign, digits, tail) && v == SignedNumber(sign, digits)
  }

  lemma UnsignedOf(digits: string, tail: string)
    requires digits != [] && AllDigits(digits) && (tail == [] || !IsDigit(tail[0]))
    ensures Unsigned(digits + tail) == Ok(Number(digits)) && IsDigit((digits + tail)[0])
  {
    DigitsThenOther(digits, tail);
    assert (digits + tail)[..|digits|] == digits;
  }

  lemma StoiWithoutGap(sign: string, digits: string, tail: string)
    requires sign == "" || sign == "+" || sign == "-"
    requires digits != [] && AllDigits(digits) && (tail == [] || !IsDigit(tail[0]))
    ensures var v := SignedNumber(sign, digits);
            Stoi(sign + (digits + tail)) == if IsInt(v) then Ok(v) else Err(NumberTooWide)
  {
    hide Unsigned, Number;
    UnsignedOf(digits, tail);
    var s := sign + (digits + tail);
    if sign == "" {
      assert s == digits + tail;
    } else {
      assert s[1..] == digits + tail && s[0] == sign[0];
    }
  }

  lemma {:induction false} StoiOfParts(s: string, gap: string, sign: string, digits: string, tail: string)
    requires NumberParts(s, gap, sign, digits, tail)
    ensures var v := SignedNumber(sign, digits);
            Stoi(s) == if IsInt(v) then Ok(v) else Err(NumberTooWide)
    decreases |gap|
  {
    hide Unsigned, Number;
    if gap == [] {
      StoiWithoutGap(sign, digits, tail);
      assert s == sign + (digits + tail);
    } else {
      assert s[0] == gap[0];
      assert s[1..] == gap[1..] + sign + digits + tail;
      StoiOfParts(s[1..], gap[1..], sign, digits, tail);
    }
  }

  lemma {:induction false} DigitsEnd(s: string)
    ensures s[DigitCount(s)..] == [] || !IsDigit(s[DigitCount(s)])
  {
    if |s| > 0 && IsDigit(s[0]) { DigitsEnd(s[1..]); }
  }

  lemma SplitDigits(rest: string)
    ensures var n := DigitCount(rest);
            AllDigits(rest[..n]) && (rest[n..] == [] || !IsDigit(rest[n..][0])) && rest == rest[..n] + rest[n..]
  {
    DigitPrefix(rest);
    DigitsEnd(rest);
  }

  function SignOf(s: string): (sign: string)
    ensures sign <= s
  {
    if |s| > 0 && (s[0] == '-' || s[0] == '+') then [s[0]] else ""
  }

  lemma HasDigits(s: string)
    requires (|s| > 0 ==> !IsSpace(s[0])) && Stoi(s) != Err(NotANumber)
    ensures DigitCount(s[|SignOf(s)|..]) > 0
  {
    hide Number, DigitCount;
  }

  lemma PartsWithoutGap(s: string) returns (sign: string, digits: string, tail: string)
    requires (|s| > 0 ==> !IsSpace(s[0])) && Stoi(s) != Err(NotANumber)
    ensures NumberParts(s, "", sign, digits, tail)
  {
    hide Stoi, DigitCount;
    sign := SignOf(s);
    var rest := s[|sign|..];
    HasDigits(s);
    SplitDigits(rest);
    digits, tail := rest[..DigitCount(rest)], rest[DigitCount(rest)..];
    assert s == "" + sign + digits + tail;
  }

  lemma {:induction false} PartsOfStoi(s: string) returns (gap: string, sign: string, digits: string, tail: string)
    requires Stoi(s) != Err(NotANumber)
    ensures NumberParts(s, gap, sign, digits, tail)
  {
    hide Number, DigitCount, Unsigned;
    if |s| > 0 && IsSpace(s[0]) {
      gap, sign, digits, tail := PartsOfStoi(s[1..]);
      OneMoreSpace(s, gap, sign, digits, tail);
      gap := [s[0]] + gap;
    } else {
      gap := "";
      sign, digits, tail := PartsWithoutGap(s);
    }
  }

  lemma OneMoreSpace(s: string, gap: string, sign: string, digits: string, tail: string)
    requires s != [] && IsSpace(s[0]) && NumberParts(s[1..], gap, sign, digits, tail)
    ensures NumberParts(s, [s[0]] + gap, sign, digits, tail)
  {
    assert s == [s[0]] + (gap + sign + digits + tail);
    assert [s[0]] + (gap + sign + digits + tail) == [s[0]] + gap + sign + digits + tail;
  }

  /** Exactly when std::stoi succeeds, and with what. */
  lemma StoiIff(s: string, v: int)
    ensures Stoi(s) == Ok(v) <==> Spells(s, v) && IsInt(v)
  {
    if Spells(s, v) {
      var gap, sign, digits, tail :| NumberParts(s, gap, sign, digits, tail) && v == SignedNumber(sign, digits);
      StoiOfParts(s, gap, sign, digits, tail);
    }
    if Stoi(s) == Ok(v) {
      var gap, sign, digits, tail := PartsOfStoi(s);
      StoiOfParts(s, gap, sign, digits, tail);
    }
  }

  /** It throws invalid_argument exactly when the text stands for no number, and out_of_range for one that is too
      wide. */
  lemma StoiFailsIff(s: string)
    ensures Stoi(s) == Err(NotANumber) <==> forall v :: !Spells(s, v)
    ensures Stoi(s) == Err(NumberTooWide) <==> exists v :: Spells(s, v) && !IsInt(v)
  {
    forall v | Spells(s, v) ensures Stoi(s) == if IsInt(v) then Ok(v) else Err(NumberTooWide) {
      var gap, sign, digits, tail :| NumberParts(s, gap, sign, digits, tail) && v == SignedNumber(sign, digits);
      StoiOfParts(s, gap, sign, digits, tail);
    }
    if Stoi(s) != Err(NotANumber) {
      var gap, sign, digits, tail := PartsOfStoi(s);
      assert Spells(s, SignedNumber(sign, digits));
    }
  }

  /** The field is a base, and perhaps a slash and the text of a step. */
  predicate Shaped(field: string, base: string, step: Option<string>) {
    '/' !in base && field == match step { case None => base case Some(t) => base + ['/'] + t }
  }

  ghost predicate GoodStep(t: string) {
    exists n :: Spells(t, n) && 1 <= n <= MAX_INT
  }

  ghost predicate GoodValue(base: string, min: int, max: int) {
    '-' !in base && exists v :: Spells(base, v) && min <= v <= max
  }

  ghost predicate RangeOf(base: string, a: string, b: string, x: int, y: int) {
    base == a + ['-'] + b && '-' !in a && Spells(a, x) && Spells(b, y)
  }

  ghost predicate GoodRange(base: string, min: int, max: int) {
    exists a, b, x, y :: RangeOf(base, a, b, x, y) && min <= x <= y <= max
  }

  ghost predicate GoodBase(base: string, min: int, max: int) {
    base == "*" || GoodValue(base, min, max) || GoodRange(base, min, max)
  }

  lemma BaseIff(base: string, min: int, max: int)
    requires IsInt(min) && IsInt(max)
    ensures GoodBase(base, min, max) <==>
      ReadBase(base).Ok? && Complaint(Form(ReadBase(base).value, None), min, max).None?
  {
    hide Spells, Stoi;
    var k := Find(base, '-');
    if k.Some? {
      RangeIff(base, k.value, min, max);
    } else {
      forall v ensures Stoi(base) == Ok(v) <==> Spells(base, v) && IsInt(v) { StoiIff(base, v); }
      assert !GoodRange(base, min, max);
    }
  }

  lemma RangeIff(base: string, k: nat, min: int, max: int)
    requires IsInt(min) && IsInt(max) && Find(base, '-') == Some(k)
    ensures base[..k] + ['-'] + base[k + 1..] == base
    ensures (exists x, y :: Stoi(base[..k]) == Ok(x) && Stoi(base[k + 1..]) == Ok(y) && min <= x <= y <= max)
      <==> GoodRange(base, min, max)
  {
    hide Spells, Stoi;
    if x, y :| Stoi(base[..k]) == Ok(x) && Stoi(base[k + 1..]) == Ok(y) && min <= x <= y <= max {
      StoiIff(base[..k], x);
      StoiIff(base[k + 1..], y);
      assert RangeOf(base, base[..k], base[k + 1..], x, y);
    }
    if GoodRange(base, min, max) {
      var a, b, x, y :| RangeOf(base, a, b, x, y) && min <= x <= y <= max;
      FindAt(a, '-', b);
      StoiIff(a, x);
      StoiIff(b, y);
    }
  }

  lemma ShapeIff(field: string, base: string, step: Option<string>, min: int, max: int)
    requires IsInt(min) && IsInt(max) && Shaped(field, base, step)
    ensures Accepted(field, min, max) <==> GoodBase(base, min, max) && (step.Some? ==> GoodStep(step.value))
  {
    hide Spells, Stoi, ReadBase, GoodBase;
    BaseIff(base, min, max);
    if step.Some? {
      FindAt(base, '/', step.value);
      forall n ensures Stoi(step.value) == Ok(n) <==> Spells(step.value, n) && IsInt(n) { StoiIff(step.value, n); }
    }
  }

  /** The exact set of accepted texts: a base that is a star, a number in range or two ordered numbers in range around
      the first '-', and after the first '/', if any, a positive number. Each number may be followed by anything. */
  lemma AcceptedIff(field: string, min: int, max: int)
    requires IsInt(min) && IsInt(max)
    ensures Accepted(field, min, max) <==>
      exists base, step: Option<string> :: Shaped(field, base, step)
        && GoodBase(base, min, max) && (step.Some? ==> GoodStep(step.value))
  {
    hide GoodBase, GoodStep, Accepted;
    var slash := Find(field, '/');
    var base := if slash.Some? then field[..slash.value] else field;
    var step := if slash.Some? then Some(field[slash.value + 1..]) else None;
    assert Shaped(field, base, step);
    ShapeIff(field, base, step, min, max);
    forall b, t: Option<string> | Shaped(field, b, t) ensures Accepted(field, min, max) <==>
      GoodBase(b, min, max) && (t.Some? ==> GoodStep(t.value))
    {
      ShapeIff(field, b, t, min, max);
    }
  }

  /** What std::stoi makes of written numbers, with a sign or without, before any other text. */
  lemma StoiOfDecimal(n: nat, rest: string)
    requires rest == [] || !IsDigit(rest[0])
    ensures Stoi(Decimal(n) + rest) == if n <= 2147483647 then Ok(n) else Err(NumberTooWide)
    ensures Stoi("+" + Decimal(n) + rest) == if n <= 2147483647 then Ok(n) else Err(NumberTooWide)
    ensures Stoi("-" + Decimal(n) + rest) == if n <= 2147483648 then Ok(-(n as int)) else Err(NumberTooWide)
  {
    hide Stoi, Decimal, Number;
    NumberOfDecimal(n);
    assert "" + "" + Decimal(n) + rest == Decimal(n) + rest;
    StoiOfParts(Decimal(n) + rest, "", "", Decimal(n), rest);
    assert "" + "+" + Decimal(n) + rest == "+" + Decimal(n) + rest;
    StoiOfParts("+" + Decimal(n) + rest, "", "+", Decimal(n), rest);
    assert "" + "-" + Decimal(n) + rest == "-" + Decimal(n) + rest;
    StoiOfParts("-" + Decimal(n) + rest, "", "-", Decimal(n), rest);
  }

  lemma DecimalExample()
    ensures Decimal(907) == "907" && Decimal(0) == "0"
  {
  }

  // ---------------------------------------------------------------- what a form selects

  /** First and last value that a form can select. */
  function Start(f: Form, min: int): int {
    match f.base
    case Star => min
    case Value(v) => v
    case Range(a, b) => a
  }

  function End(f: Form, max: int): int {
    match f.base
    case Star => max
    case Value(v) => if f.step.None? || f.step == Some(1) then v else max
    case Range(a, b) => b
  }

  /** x lies k steps of n after start. */
  predicate StepsAfter(x: int, start: int, n: int, k: nat) {
    x == start + k * n
  }

  lemma RemainderIff(x: int, start: int, n: int)
    requires n > 0
    ensures x >= start && (x - start) % n == 0 <==> exists k: nat :: StepsAfter(x, start, n, k)
  {
    if x >= start && (x - start) % n == 0 {
      var k := (x - start) / n;
      assert x == start + k * n;
      if k < 0 { TimesGrows(k, n); }
      assert StepsAfter(x, start, n, k);
    }
    if k: nat :| StepsAfter(x, start, n, k) {
      MultipleOf(k, n);
      if k > 0 { TimesGrows(k, n); }
    }
  }

  /** The values start, start + step, start + 2 * step and so on up to the end; a single value with no step or with
      step 1 is just that value. */
  lemma SelectsIff(f: Form, min: int, max: int, x: int)
    requires f.step.Some? ==> f.step.value > 0
    ensures var n := if f.step.Some? then f.step.value else 1;
            Selects(f, min, max, x) <==>
              x <= End(f, max) && exists k: nat :: StepsAfter(x, Start(f, min), n, k)
  {
    hide StepsAfter;
    RemainderIff(x, Start(f, min), if f.step.Some? then f.step.value else 1);
  }

  /** Which error a bad field gives: the step is read first, then the base from left to right, then the limits count. */
  lemma ErrorsInOrder(field: string, base: string, t: string)
    requires '/' !in base
    ensures field == base + ['/'] + t && Stoi(t).Err? ==> Read(field) == Err(Stoi(t).error)
    ensures field == base + ['/'] + t && Stoi(t).Ok? && Stoi(t).value <= 0 ==> Read(field) == Err(BadStep)
    ensures field == base + ['/'] + t && Stoi(t).Ok? && Stoi(t).value > 0 && ReadBase(base).Err? ==>
      Read(field) == Err(ReadBase(base).error)
    ensures field == base && ReadBase(base).Err? ==> Read(field) == Err(ReadBase(base).error)
  {
    hide Stoi, ReadBase;
    if field == base + ['/'] + t { ReadWithStep(field, base, t); }
  }

  lemma BaseErrorsInOrder(base: string, a: string, b: string)
    requires '-' !in a
    ensures base == a + ['-'] + b && Stoi(a).Err? ==> ReadBase(base) == Err(Stoi(a).error)
    ensures base == a + ['-'] + b && Stoi(a).Ok? && Stoi(b).Err? ==> ReadBase(base) == Err(Stoi(b).error)
    ensures base == a && a != "*" && Stoi(a).Err? ==> ReadBase(base) == Err(Stoi(a).error)
  {
    hide Stoi;
    if base == a + ['-'] + b { FindAt(a, '-', b); }
  }

  lemma LimitErrors(v: int, a: int, b: int, step: Option<int>, min: int, max: int)
    ensures Complaint(Form(Value(v), step), min, max) == if v < min || v > max then Some(BadValue) else None
    ensures Complaint(Form(Range(a, b), step), min, max) == if a < min || b > max || a > b then Some(BadRange) else None
    ensures Complaint(Form(Star, step), min, max) == None
  {
  }

  // ---------------------------------------------------------------- comma lists

  /** Text after a number that does not reach the next '-' or '/'. */
  predicate IsJunk(junk: string) {
    '/' !in junk && '-' !in junk && (junk == [] || !IsDigit(junk[0]))
  }

  predicate StartsPart(tail: string) {
    tail == [] || tail[0] == '-' || tail[0] == '/'
  }

  /** A number without a minus sign, in any spelling that std::stoi takes. */
  ghost predicate IsNumber(n: string) {
    exists gap, sign, digits :: NumberParts(n, gap, sign, digits, "") && sign != "-"
  }

  lemma NumberThenJunk(n: string, junk: string)
    requires IsNumber(n) && IsJunk(junk)
    ensures '/' !in n && '-' !in n && n != [] && (n + junk)[0] != '*' && n[0] != '*'
    ensures Stoi(n + junk) == Stoi(n) != Err(NotANumber)
  {
    hide Stoi, Number;
    var gap, sign, digits :| NumberParts(n, gap, sign, digits, "") && sign != "-";
    SlashFree(digits);
    assert '/' !in gap && '-' !in gap;
    assert n == gap + sign + digits;
    assert n[0] == if gap != [] then gap[0] else if sign != "" then sign[0] else digits[0];
    assert n + junk == gap + sign + digits + junk;
    StoiOfParts(n, gap, sign, digits, "");
    StoiOfParts(n + junk, gap, sign, digits, junk);
  }

  lemma JunkInBase(n: string, junk: string, tail: string)
    requires IsNumber(n) && IsJunk(junk) && StartsPart(tail) && '/' !in tail
    ensures ReadBase(n + junk + tail) == ReadBase(n + tail)
  {
    hide Stoi, IsNumber;
    NumberThenJunk(n, junk);
    if tail == [] {
      assert n + junk + tail == n + junk && '-' !in n + junk && n + tail == n;
    } else {
      var after := tail[1..];
      assert tail == ['-'] + after;
      assert n + junk + tail == n + junk + ['-'] + after;
      assert n + tail == n + ['-'] + after;
      FindAt(n + junk, '-', after);
      FindAt(n, '-', after);
    }
  }

  /** How a field with a step is read. */
  function WithStep(base: Result<Base, CronError>, step: Result<int, CronError>): Result<Form, CronError> {
    match step
    case Err(e) => Err(e)
    case Ok(n) => if n <= 0 then Err(BadStep) else match base case Err(e) => Err(e) case Ok(b) => Ok(Form(b, Some(n)))
  }

  lemma ReadWithStep(field: string, base: string, t: string)
    requires '/' !in base && field == base + ['/'] + t
    ensures Read(field) == WithStep(ReadBase(base), Stoi(t))
  {
    hide Stoi, ReadBase;
    FindAt(base, '/', t);
  }

  lemma JunkBeforeStep(n: string, junk: string, base: string, t: string)
    requires IsNumber(n) && IsJunk(junk) && StartsPart(base) && '/' !in base
    ensures Read(n + junk + base + ['/'] + t) == Read(n + base + ['/'] + t)
  {
    hide Stoi, ReadBase, WithStep, Read, IsNumber;
    NumberThenJunk(n, junk);
    JunkInBase(n, junk, base);
    ReadWithStep(n + junk + base + ['/'] + t, n + junk + base, t);
    ReadWithStep(n + base + ['/'] + t, n + base, t);
  }

  lemma JunkWithoutStep(n: string, junk: string, tail: string)
    requires IsNumber(n) && IsJunk(junk) && StartsPart(tail) && '/' !in tail
    ensures Read(n + junk + tail) == Read(n + tail)
  {
    hide Stoi, ReadBase, IsNumber;
    NumberThenJunk(n, junk);
    JunkInBase(n, junk, tail);
    assert '/' !in n + junk + tail && '/' !in n + tail;
  }

  lemma StepAtEnd(a: string, b: string, base: string, t: string)
    ensures a + b + (base + ['/'] + t) == a + b + base + ['/'] + t
    ensures a + (base + ['/'] + t) == a + base + ['/'] + t
  {
  }

  /** Whatever follows the first number of a field, up to the next '-' or '/', makes no difference. */
  lemma JunkIsCut(n: string, junk: string, tail: string)
    requires IsNumber(n) && IsJunk(junk) && StartsPart(tail)
    ensures Read(n + junk + tail) == Read(n + tail)
  {
    hide Read, IsNumber;
    var k := Find(tail, '/');
    if k.Some? {
      var base, t := tail[..k.value], tail[k.value + 1..];
      assert tail == base + ['/'] + t;
      JunkBeforeStep(n, junk, base, t);
      StepAtEnd(n, junk, base, t);
    } else {
      JunkWithoutStep(n, junk, tail);
    }
  }

  /** A list that starts with a number and a comma: it is accepted exactly when what is left without the comma and the
      text up to the next '-' or '/' is accepted, and it is read as that. A list of plain values is its first value. */
  lemma CommaListIsCut(n: string, others: string, tail: string, min: int, max: int)
    requires IsNumber(n) && '/' !in others && '-' !in others && StartsPart(tail)
    ensures Read(n + "," + others + tail) == Read(n + tail)
    ensures Accepted(n + "," + others + tail, min, max) <==> Accepted(n + tail, min, max)
    ensures tail == [] ==>
      Read(n + "," + others + tail) == match Stoi(n) { case Ok(v) => Ok(Form(Value(v), None)) case Err(e) => Err(e) }
  {
    hide IsNumber, Stoi;
    assert n + "," + others + tail == n + ("," + others) + tail;
    JunkIsCut(n, "," + others, tail);
    if tail == [] {
      NumberThenJunk(n, []);
      assert n + tail == n;
    }
  }

  /** Every continuation of a list is of that kind. */
  lemma {:induction false} CommaListSplits(rest: string) returns (others: string, tail: string)
    ensures rest == others + tail && '/' !in others && '-' !in others && StartsPart(tail)
  {
    if StartsPart(rest) {
      others, tail := [], rest;
    } else {
      others, tail := CommaListSplits(rest[1..]);
      others := [rest[0]] + others;
    }
  }

  lemma DecimalIsNumber(v: nat)
    ensures IsNumber(Decimal(v))
  {
    assert NumberParts(Decimal(v), "", "", Decimal(v), "");
  }

  /** In particular "v,a-b" is the range from v to b. */
  lemma CommaRange(v: nat, a: nat, b: nat)
    requires v <= MAX_INT && b <= MAX_INT
    ensures Read(Decimal(v) + "," + Decimal(a) + ("-" + Decimal(b))) == Ok(Form(Range(v, b), None))
  {
    hide Read, Decimal;
    DecimalIsNumber(v);
    SlashFree(Decimal(a));
    CommaListIsCut(Decimal(v), Decimal(a), "-" + Decimal(b), 0, 0);
    ReadShown(Form(Range(v, b), None));
    assert Decimal(v) + ("-" + Decimal(b)) == Show(Form(Range(v, b), None));
  }

  lemma {:induction false} CommaIsNoDigit(first: string, rest: string)
    requires Stoi(first) == Err(NotANumber)
    ensures Stoi(first + "," + rest) == Err(NotANumber)
    decreases |first|
  {
    var s := first + "," + rest;
    if first == [] {
      assert s[0] == ',';
    } else if IsSpace(first[0]) {
      assert s[0] == first[0] && s[1..] == first[1..] + "," + rest;
      CommaIsNoDigit(first[1..], rest);
    } else {
      assert s[0] == first[0] && s[1..] == first[1..] + "," + rest;
      assert s[1] == if |first| > 1 then first[1] else ',';
    }
  }

  /** A list whose first item spells no number, such as a star, is refused. */
  lemma OtherListIsRefused(first: string, others: string)
    requires '/' !in first && '-' !in first && Stoi(first) == Err(NotANumber)
    ensures Read(first + "," + others).Err?
  {
    hide Stoi;
    var field := first + "," + others;
    var slash := Find(field, '/');
    var base := if slash.Some? then field[..slash.value] else field;
    assert slash.Some? ==> slash.value > |first|;
    CommaPrefix(first, others, base);
    var dash := Find(base, '-');
    if dash.Some? {
      CommaPrefix(first, others, base[..dash.value]);
    }
  }

  /** Any beginning of such a list that goes beyond the comma spells no number either. */
  lemma CommaPrefix(first: string, others: string, part: string)
    requires '/' !in first && '-' !in first && Stoi(first) == Err(NotANumber)
    requires part <= first + "," + others && |part| > |first|
    ensures Stoi(part) == Err(NotANumber) && part != "*"
  {
    hide Stoi;
    var rest := part[|first| + 1..];
    assert part == first + "," + rest;
    CommaIsNoDigit(first, rest);
    assert part[|first|] == ',';
  }

  lemma StarIsNoNumber(s: string)
    requires s != [] && s[0] == '*'
    ensures Stoi(s) == Err(NotANumber)
  {
  }

  /** For example, a list that starts with a star. */
  lemma StarListIsRefused(others: string)
    ensures Read("*," + others).Err?
  {
    hide Read, Stoi;
    StarIsNoNumber("*");
    OtherListIsRefused("*", others);
    assert "*" + "," + others == "*," + others;
  }
}
