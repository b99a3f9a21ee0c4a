/** The text of a cron expression: splitting it into words, reading numbers, and turning one field into the list of the
    values it selects. Integers are unbounded where the source adds a step to an int. */
module CronField {
  import opened Wrappers

  /** What std::invalid_argument and std::out_of_range stand for in each place they are thrown. */
  datatype CronError = WrongFieldCount | NotANumber | NumberTooWide | BadStep | BadRange | BadValue

  const MAX_INT: int := 0x7fff_ffff

  // ---------------------------------------------------------------- numbers

  predicate IsSpace(c: char) {
    c == ' ' || '\t' <= c <= '\r'
  }

  /** The white space of the C locale. */
  lemma WhiteSpace(c: char)
    ensures IsSpace(c) <==> c in [' ', '\t', '\n', '\U{0B}', '\U{0C}', '\r']
  {
  }

  predicate IsDigit(c: char) {
    '0' <= c <= '9'
  }

  predicate AllDigits(s: string) {
    forall i :: 0 <= i < |s| ==> IsDigit(s[i])
  }

  /** The number of digits that s begins with. */
  function DigitCount(s: string): (n: nat)
    ensures n <= |s|
  {
    if |s| > 0 && IsDigit(s[0]) then 1 + DigitCount(s[1..]) else 0
  }

  function Number(digits: string): nat
    requires AllDigits(digits)
  {
    if digits == [] then 0
    else 10 * Number(digits[..|digits| - 1]) + (digits[|digits| - 1] - '0') as nat
  }

  lemma {:induction false} DigitPrefix(s: string)
    ensures AllDigits(s[..DigitCount(s)])
  {
    if |s| > 0 && IsDigit(s[0]) {
      DigitPrefix(s[1..]);
      assert s[..DigitCount(s)] == [s[0]] + s[1..][..DigitCount(s[1..])];
    }
  }

  function Unsigned(s: string): Result<int, CronError> {
    if DigitCount(s) == 0 then Err(NotANumber)
    else
      DigitPrefix(s);
      Ok(Number(s[..DigitCount(s)]))
  }

  /** std::stoi in base ten: leading white space and a sign are accepted and whatever follows the digits is ignored. */
  function Stoi(s: string): Result<int, CronError>
  {
    if |s| > 0 && IsSpace(s[0]) then Stoi(s[1..])
    else
      var negative := |s| > 0 && s[0] == '-';
      var signed := |s| > 0 && (s[0] == '-' || s[0] == '+');
      match Unsigned(if signed then s[1..] else s)
      case Err(e) => Err(e)
      case Ok(n) =>
        var value := if negative then -n else n;
        if -MAX_INT - 1 <= value <= MAX_INT then Ok(value) else Err(NumberTooWide)
  }

  /** How std::to_string writes a number. */
  function Decimal(n: nat): (s: string)
    ensures |s| > 0 && AllDigits(s)
  {
    if n < 10 then ['0' + n as char] else Decimal(n / 10) + ['0' + (n % 10) as char]
  }

  lemma {:induction false} NumberOfDecimal(n: nat)
    ensures Number(Decimal(n)) == n
  {
    if n >= 10 {
      NumberOfDecimal(n / 10);
      assert Decimal(n)[..|Decimal(n)| - 1] == Decimal(n / 10);
    } else {
      assert Number([]) == 0;
      assert Decimal(n)[..0] == [];
    }
  }

  lemma {:induction false} DigitsThenOther(digits: string, rest: string)
    requires AllDigits(digits) && (rest == [] || !IsDigit(rest[0]))
    ensures DigitCount(digits + rest) == |digits|
  {
    if digits == [] {
      assert digits + rest == rest;
    } else {
      DigitsThenOther(digits[1..], rest);
      assert (digits + rest)[1..] == digits[1..] + rest;
    }
  }

  /** A written number is read back, and text after it makes no difference. */
  lemma ReadDecimal(n: nat, rest: string)
    requires n <= MAX_INT && (rest == [] || !IsDigit(rest[0]))
    ensures Stoi(Decimal(n) + rest) == Ok(n)
  {
    DigitsThenOther(Decimal(n), rest);
    NumberOfDecimal(n);
    assert (Decimal(n) + rest)[..|Decimal(n)|] == Decimal(n);
    assert IsDigit((Decimal(n) + rest)[0]);
  }

  // ---------------------------------------------------------------- searching a string

  /** std::string::find. */
  function Find(s: string, c: char): (r: Option<nat>)
    ensures r.Some? ==> r.value < |s| && s[r.value] == c && c !in s[..r.value]
    ensures r.None? ==> c !in s
  {
    if s == [] then None
    else if s[0] == c then Some(0)
    else
      match Find(s[1..], c)
      case None => None
      case Some(k) => assert s[..k + 1] == [s[0]] + s[1..][..k]; Some(k + 1)
  }

  lemma FindAt(before: string, c: char, after: string)
    requires c !in before
    ensures Find(before + [c] + after, c) == Some(|before|)
    ensures (before + [c] + after)[..|before|] == before
    ensures (before + [c] + after)[|before| + 1..] == after
  {
    var s := before + [c] + after;
    assert forall k :: 0 <= k < |before| ==> s[k] == before[k] && before[k] in before;
    assert forall j :: |before| < j <= |s| ==> s[..j][|before|] == c;
    assert s[|before|] == c;
  }

  // ---------------------------------------------------------------- the forms of a field

  datatype Base = Star | Value(v: int) | Range(first: int, last: int)

  /** A field as it is documented: any, a value or a range, with an optional step. */
  datatype Form = Form(base: Base, step: Option<int>)

  function StepOf(f: Form): int {
    if f.step.Some? then f.step.value else 1
  }

  /** The text of a form. */
  function ShowBase(b: Base): string
    requires Showable(b)
  {
    match b
    case Star => "*"
    case Value(v) => Decimal(v)
    case Range(a, b) => Decimal(a) + ['-'] + Decimal(b)
  }

  function Show(f: Form): string
    requires Showable(f.base) && (f.step.Some? ==> f.step.value >= 0)
  {
    match f.step
    case None => ShowBase(f.base)
    case Some(n) => ShowBase(f.base) + ['/'] + Decimal(n)
  }

  predicate Showable(b: Base) {
    match b
    case Star => true
    case Value(v) => 0 <= v <= MAX_INT
    case Range(a, b) => 0 <= a <= MAX_INT && 0 <= b <= MAX_INT
  }

  function ReadBase(s: string): Result<Base, CronError> {
    match Find(s, '-')
    case Some(k) => (
      match Stoi(s[..k])
      case Err(e) => Err(e)
      case Ok(a) =>
        match Stoi(s[k + 1..])
        case Err(e) => Err(e)
        case Ok(b) => Ok(Range(a, b)))
    case None =>
      if s == "*" then Ok(Star)
      else
        match Stoi(s)
        case Err(e) => Err(e)
        case Ok(v) => Ok(Value(v))
  }

  /** The form that a text is read as. */
  function Read(s: string): Result<Form, CronError> {
    match Find(s, '/')
    case None => (
      match ReadBase(s)
      case Err(e) => Err(e)
      case Ok(b) => Ok(Form(b, None)))
    case Some(k) =>
      match Stoi(s[k + 1..])
      case Err(e) => Err(e)
      case Ok(n) =>
        if n <= 0 then Err(BadStep)
        else
          match ReadBase(s[..k])
          case Err(e) => Err(e)
          case Ok(b) => Ok(Form(b, Some(n)))
  }

  /** What is wrong with a form for a field with values from min to max, if anything. */
  function Complaint(f: Form, min: int, max: int): Option<CronError> {
    match f.base
    case Star => None
    case Value(v) => if min <= v <= max then None else Some(BadValue)
    case Range(a, b) => if min <= a <= b <= max then None else Some(BadRange)
  }

  /** The values that a form means: a step on a single value above 1 runs to the end of the field. */
  predicate Selects(f: Form, min: int, max: int, x: int) {
    var n := StepOf(f);
    n > 0 &&
    match f.base
    case Star => min <= x <= max && (x - min) % n == 0
    case Range(a, b) => a <= x <= b && (x - a) % n == 0
    case Value(v) => if n == 1 then x == v else v <= x <= max && (x - v) % n == 0
  }

  predicate Increasing(s: seq<int>) {
    forall i, j :: 0 <= i < j < |s| ==> s[i] < s[j]
  }

  /** values lists, in order and once each, what the form selects. */
  ghost predicate Lists(values: seq<int>, f: Form, min: int, max: int) {
    Increasing(values) && forall x :: x in values <==> Selects(f, min, max, x)
  }

  /** An increasing list is determined by its members. */
  lemma {:induction false} IncreasingUnique(s: seq<int>, t: seq<int>)
    requires Increasing(s) && Increasing(t)
    requires forall x :: x in s <==> x in t
    ensures s == t
  {
    assert forall k :: 0 <= k < |s| ==> s[k] in s;
    assert forall k :: 0 <= k < |t| ==> t[k] in t;
    assert |t| > 0 ==> t[0] in s;
    assert |s| > 0 ==> s[0] in t;
    if s != [] && t != [] {
      var k := |s| - 1;
      var l := |t| - 1;
      assert s[k] in t && t[l] in s;
      assert s[k] == t[l];
      forall x ensures x in s[..k] <==> x in t[..l] {
        assert x in s[..k] <==> x in s && x != s[k];
        assert x in t[..l] <==> x in t && x != t[l];
      }
      IncreasingUnique(s[..k], t[..l]);
    }
  }

  lemma TimesGrows(k: int, n: int)
    requires n > 0
    ensures (k >= 1 ==> k * n >= n) && (k <= -1 ==> k * n <= -n)
  {
  }

  lemma MultipleOf(k: int, n: int)
    requires n > 0
    ensures (k * n) % n == 0
  {
    var q := (k * n) / n;
    assert (k * n) % n == (k - q) * n;
    TimesGrows(k - q, n);
  }

  lemma NextStep(d: int, step: int)
    requires step > 0 && d % step == 0
    ensures (d + step) % step == 0
  {
    assert d + step == (d / step + 1) * step;
    MultipleOf(d / step + 1, step);
  }

  lemma StepsApart(x: int, i: int, start: int, step: int)
    requires step > 0 && (i - start) % step == 0 && i <= x < i + step
    ensures (x - start) % step == 0 <==> x == i
  {
    if (x - start) % step == 0 {
      var p, q := (x - start) / step, (i - start) / step;
      assert x - i == (p - q) * step;
      TimesGrows(p - q, step);
    }
  }

  /** The push loop that every branch of parseField runs: start, start + step, ... up to stop. */
  method PushSteps(start: int, stop: int, step: int) returns (values: seq<int>)
    requires step > 0
    ensures Increasing(values)
    ensures forall x :: x in values <==> start <= x <= stop && (x - start) % step == 0
  {
    values := [];
    var i := start;
    while i <= stop
      invariant start <= i && (i - start) % step == 0
      invariant Increasing(values)
      invariant forall x :: x in values <==> start <= x <= stop && x < i && (x - start) % step == 0
      decreases stop - i
    {
      ghost var before := values;
      assert forall k :: 0 <= k < |before| ==> before[k] in before;
      values := values + [i];
      forall x ensures x in values <==> start <= x <= stop && x < i + step && (x - start) % step == 0 {
        assert x in values <==> x in before || x == i;
        if i <= x < i + step { StepsApart(x, i, start, step); }
      }
      assert (i + step - start) % step == 0 by { NextStep(i - start, step); }
      i := i + step;
    }
  }

  /** The outcome of reading a field: the text is read as a form, which is complained about or listed. */
  ghost predicate FieldRead(field: string, min: int, max: int, r: Result<seq<int>, CronError>) {
    match Read(field)
    case Err(e) => r == Err(e)
    case Ok(f) =>
      match Complaint(f, min, max)
      case Some(e) => r == Err(e)
      case None => r.Ok? && Lists(r.value, f, min, max)
  }

  /** parseField: the text is read as a form, and the field lists exactly what that form selects. */
  method ParseField(field: string, min: int, max: int) returns (r: Result<seq<int>, CronError>)
    requires min <= max
    ensures FieldRead(field, min, max, r)
  {
    if field == "*" {
      var every := PushSteps(min, max, 1);
      return Ok(every);
    }
    var base := field;
    var step := 1;
    var slash := Find(field, '/');
    if slash.Some? {
      base := field[..slash.value];
      var n := Stoi(field[slash.value + 1..]);
      if n.Err? { return Err(n.error); }
      step := n.value;
      if step <= 0 { return Err(BadStep); }
    }
    var values;
    var dash := Find(base, '-');
    if dash.Some? {
      var a := Stoi(base[..dash.value]);
      if a.Err? { return Err(a.error); }
      var b := Stoi(base[dash.value + 1..]);
      if b.Err? { return Err(b.error); }
      if a.value < min || b.value > max || a.value > b.value { return Err(BadRange); }
      values := PushSteps(a.value, b.value, step);
    } else if base == "*" {
      values := PushSteps(min, max, step);
    } else {
      var v := Stoi(base);
      if v.Err? { return Err(v.error); }
      if v.value < min || v.value > max { return Err(BadValue); }
      if step > 1 {
        values := PushSteps(v.value, max, step);
      } else {
        values := [v.value];
      }
    }
    return Ok(values);
  }

  /** The contract of ParseField fixes its result: two lists of the same form are equal. */
  lemma ListsUnique(s: seq<int>, t: seq<int>, f: Form, min: int, max: int)
    requires Lists(s, f, min, max) && Lists(t, f, min, max)
    ensures s == t
  {
    IncreasingUnique(s, t);
  }

  lemma SlashFree(s: string)
    requires AllDigits(s)
    ensures '/' !in s && '-' !in s && s != "*"
  {
    assert !IsDigit("*"[0]);
  }

  lemma ReadShownBase(b: Base)
    requires Showable(b)
    ensures ReadBase(ShowBase(b)) == Ok(b) && '/' !in ShowBase(b)
  {
    match b
    case Star =>
    case Value(v) =>
      SlashFree(Decimal(v));
      assert Decimal(v) + [] == Decimal(v);
      ReadDecimal(v, []);
    case Range(a, b) =>
      SlashFree(Decimal(a));
      SlashFree(Decimal(b));
      FindAt(Decimal(a), '-', Decimal(b));
      assert Decimal(a) + [] == Decimal(a) && Decimal(b) + [] == Decimal(b);
      ReadDecimal(a, []);
      ReadDecimal(b, []);
  }

  /** Every documented form is read back from its text, the step checked to be positive. */
  lemma ReadShown(f: Form)
    requires Showable(f.base) && (f.step.Some? ==> 0 <= f.step.value <= MAX_INT)
    ensures Read(Show(f)) == if f.step == Some(0) then Err(BadStep) else Ok(f)
  {
    ReadShownBase(f.base);
    if f.step.Some? {
      FindAt(ShowBase(f.base), '/', Decimal(f.step.value));
      assert Decimal(f.step.value) + [] == Decimal(f.step.value);
      ReadDecimal(f.step.value, []);
    }
  }

  /** An accepted field: read as a form that fits its limits. */
  predicate Accepted(field: string, min: int, max: int) {
    Read(field).Ok? && Complaint(Read(field).value, min, max).None?
  }

  lemma StepsRead(field: string)
    ensures Read(field).Ok? && Read(field).value.step.Some? ==> 0 < Read(field).value.step.value <= MAX_INT
  {
    var slash := Find(field, '/');
    if slash.Some? { StoiRange(field[slash.value + 1..]); }
  }

  lemma {:induction false} StoiRange(s: string)
    ensures Stoi(s).Ok? ==> -MAX_INT - 1 <= Stoi(s).value <= MAX_INT
  {
    if |s| > 0 && IsSpace(s[0]) { StoiRange(s[1..]); }
  }

  /** No accepted text has a meaning outside the documented forms: writing out the form it is read as gives a text that
      is accepted too and read the same way. */
  lemma AcceptedIsDocumented(field: string, min: int, max: int)
    requires 0 <= min <= max <= MAX_INT && Accepted(field, min, max)
    ensures var f := Read(field).value;
            Showable(f.base) && (f.step.Some? ==> f.step.value >= 0) && Read(Show(f)) == Ok(f)
  {
    StepsRead(field);
    ReadShown(Read(field).value);
  }

  lemma {:induction false} StoiErrors(s: string)
    ensures Stoi(s) != Err(WrongFieldCount)
  {
    if |s| > 0 && IsSpace(s[0]) { StoiErrors(s[1..]); }
  }

  /** A bad field is never reported as a wrong number of fields. */
  lemma FieldOutcome(field: string, min: int, max: int, r: Result<seq<int>, CronError>)
    requires FieldRead(field, min, max, r)
    ensures r.Ok? <==> Accepted(field, min, max)
    ensures r.Ok? ==> Lists(r.value, Read(field).value, min, max)
    ensures r != Err(WrongFieldCount)
  {
    var slash := Find(field, '/');
    if slash.Some? { StoiErrors(field[slash.value + 1..]); }
    var base := if slash.Some? then field[..slash.value] else field;
    var dash := Find(base, '-');
    if dash.Some? {
      StoiErrors(base[..dash.value]);
      StoiErrors(base[dash.value + 1..]);
    } else {
      StoiErrors(base);
    }
  }

  /** An accepted field selects at least one value, and only values between the limits. */
  lemma AcceptedSelects(field: string, min: int, max: int, values: seq<int>)
    requires min <= max && Accepted(field, min, max)
    requires Lists(values, Read(field).value, min, max)
    ensures values != [] && forall x :: x in values ==> min <= x <= max
  {
    StepsRead(field);
    var f := Read(field).value;
    var n := StepOf(f);
    match f.base
    case Star => assert Selects(f, min, max, min);
    case Value(v) => assert Selects(f, min, max, v);
    case Range(a, b) => assert Selects(f, min, max, a);
  }

  // ---------------------------------------------------------------- words

  predicate Solid(w: string) {
    w != [] && forall i :: 0 <= i < |w| ==> !IsSpace(w[i])
  }

  predicate Blank(s: string) {
    forall i :: 0 <= i < |s| ==> IsSpace(s[i])
  }

  /** Position of the first white-space character (space = true) or of the first other one, or the length. */
  function Until(s: string, i: nat, space: bool): (j: nat)
    requires i <= |s|
    ensures i <= j <= |s|
    ensures forall k :: i <= k < j ==> IsSpace(s[k]) != space
    ensures j < |s| ==> IsSpace(s[j]) == space
    decreases |s| - i
  {
    if i == |s| || IsSpace(s[i]) == space then i else Until(s, i + 1, space)
  }

  /** The words that repeated `>>` extraction reads: the parts of s between white space, in order. */
  function Words(s: string): seq<string> {
    var i := Until(s, 0, false);
    if i == |s| then [] else
      var j := Until(s, i, true);
      assert j > i;
      [s[i..j]] + Words(s[j..])
  }

  lemma {:induction false} WordsOfBlank(s: string)
    requires Blank(s)
    ensures Words(s) == []
  {
  }

  /** What the words are: any white space, then a word up to the next white space or the end. */
  lemma {:induction false} WordsFirst(gap: string, word: string, rest: string)
    requires Blank(gap) && Solid(word) && (rest == [] || IsSpace(rest[0]))
    ensures Words(gap + word + rest) == [word] + Words(rest)
  {
    var s := gap + word + rest;
    var i := Until(s, 0, false);
    assert forall k :: 0 <= k < |gap| ==> s[k] == gap[k];
    assert forall k :: 0 <= k < |word| ==> s[|gap| + k] == word[k];
    assert !IsSpace(s[|gap|]);
    assert i == |gap|;
    var j := Until(s, i, true);
    var end := |gap| + |word|;
    assert forall k :: |gap| <= k < end ==> s[k] == word[k - |gap|];
    assert rest != [] ==> s[end] == rest[0];
    assert j == end;
    assert s[i..j] == word && s[j..] == rest;
  }

  /** The extraction loop of the constructor. */
  method ReadWords(s: string) returns (tokens: seq<string>)
    ensures tokens == Words(s)
  {
    tokens := [];
    var rest := s;
    var i := Until(rest, 0, false);
    while i < |rest|
      invariant i == Until(rest, 0, false)
      invariant Words(s) == tokens + Words(rest)
      decreases |rest|
    {
      var j := Until(rest, i, true);
      tokens := tokens + [rest[i..j]];
      rest := rest[j..];
      i := Until(rest, 0, false);
    }
  }
}
