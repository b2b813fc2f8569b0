/**
 * `Person` of `day1/src/dataclass_handson.py`: the `"name, age"` line format that
 * `load_persons` reads and the adult filter `process_adults` applies to it.
 */
module Persons {
  import opened Wrappers
  import opened Text

  const AdultAge := 18

  datatype Person = Person(name: string, age: int)
  {
    /** `is_adult`. */
    predicate IsAdult()
    {
      age >= AdultAge
    }

    /**
     * `format_name`: the name upper-cased. It has no lower-case letter left, keeps
     * every other character of the name in place, and equals the name up to case.
     */
    function FormatName(): (r: string)
      ensures |r| == |name|
      ensures forall k :: 0 <= k < |r| ==> !IsLowerLetter(r[k])
      ensures forall k :: 0 <= k < |name| && !IsLowerLetter(name[k]) ==> r[k] == name[k]
      ensures Lower(r) == Lower(name)
      ensures Upper(r) == r
    {
      UpperIdempotent(name);
      Upper(name)
    }
  }

  /** The `ValueError` `int()` raises on an age that is not an integer, with its text. */
  datatype LoadError = BadAge(text: string)

  predicate IsDigit(c: char)
  {
    '0' <= c <= '9'
  }

  /**
   * The digit part `int()` accepts: a digit, then digits each optionally preceded
   * by one underscore.
   */
  predicate Numeral(d: string)
  {
    && d != [] && IsDigit(d[0])
    && (|d| == 1 || Numeral(d[1..]) || (d[1] == '_' && Numeral(d[2..])))
  }

  lemma {:induction false} DigitsAreNumeral(d: string)
    requires d != [] && forall k :: 0 <= k < |d| ==> IsDigit(d[k])
    ensures Numeral(d)
  {
    if |d| >= 2 {
      DigitsAreNumeral(d[1..]);
    }
  }

  /** The number the digits of `d` spell, underscores ignored. */
  function NumeralValue(d: string): nat
  {
    if d == [] then 0
    else
      var c := d[|d| - 1];
      if IsDigit(c) then NumeralValue(d[..|d| - 1]) * 10 + (c as int - '0' as int)
      else NumeralValue(d[..|d| - 1])
  }

  /** `int(text)` on base-10 text: surrounding whitespace, an optional sign, a numeral. */
  function ParseInt(text: string): Option<int>
  {
    var t := Strip(text);
    var negative := t != [] && t[0] == '-';
    var body := if t != [] && (t[0] == '-' || t[0] == '+') then t[1..] else t;
    if Numeral(body) then Some(if negative then 0 - NumeralValue(body) else NumeralValue(body)) else None
  }

  function DigitChar(d: nat): char
    requires d < 10
  {
    ('0' as int + d) as char
  }

  /** `str(n)` for a natural number. */
  function Decimal(n: nat): (s: string)
    ensures s != [] && forall k :: 0 <= k < |s| ==> IsDigit(s[k])
  {
    if n < 10 then [DigitChar(n)] else Decimal(n / 10) + [DigitChar(n % 10)]
  }

  /** `str(n)`. */
  function FormatInt(n: int): string
  {
    if n < 0 then "-" + Decimal(-n) else Decimal(n)
  }

  lemma {:induction false} DecimalValue(n: nat)
    ensures NumeralValue(Decimal(n)) == n
  {
    if n >= 10 {
      DecimalValue(n / 10);
      assert Decimal(n)[..|Decimal(n)| - 1] == Decimal(n / 10);
    }
  }

  /** `str(n)` is non-empty, has no whitespace at either end and no comma. */
  lemma FormatIntShape(n: int)
    ensures var s := FormatInt(n);
      s != [] && !IsSpace(s[0]) && !IsSpace(s[|s| - 1]) && ',' !in s
  {
    var d := Decimal(if n < 0 then -n else n);
    assert d[0] in d && d[|d| - 1] in d;
    assert ',' !in d by {
      assert forall k :: 0 <= k < |d| ==> d[k] != ',';
    }
  }

  /** `int(str(n)) == n`. */
  lemma ParseFormat(n: int)
    ensures ParseInt(FormatInt(n)) == Some(n)
  {
    var s := FormatInt(n);
    FormatIntShape(n);
    StripUnchanged(s);
    var m: nat := if n < 0 then -n else n;
    var d := Decimal(m);
    DecimalValue(m);
    DigitsAreNumeral(d);
    if n < 0 {
      assert s[0] == '-' && s[1..] == d;
    } else {
      assert s == d && IsDigit(s[0]);
    }
  }

  /**
   * The fields of one line: `None` when it is blank after stripping or does not
   * split on "," into exactly two parts; otherwise both parts stripped.
   */
  function Fields(line: string): Option<(string, string)>
  {
    var t := Strip(line);
    if t == "" then None
    else
      var parts := Split(t, ',');
      if |parts| == 2 then Some((Strip(parts[0]), Strip(parts[1]))) else None
  }

  /**
   * A line gives fields exactly when, stripped, it is non-empty and holds exactly one
   * comma.
   */
  lemma FieldsWhen(line: string)
    ensures var t := Strip(line);
      Fields(line).Some? <==> t != "" && Occurrences(t, ',') == 1
  {
    SplitPieces(Strip(line), ',');
  }

  /** The name is what precedes the comma and the age text what follows it, each stripped. */
  lemma FieldsAround(line: string)
    requires Fields(line).Some?
    ensures var t := Strip(line);
      var c := IndexOf(t, ',');
      c < |t| && Fields(line).value == (Strip(t[..c]), Strip(t[c + 1..]))
  {
    SplitTwo(Strip(line), ',');
  }

  /** What one line contributes: nothing, a person, or the bad age text that raises. */
  datatype LineResult = Skip | Keep(person: Person) | Bad(text: string)

  function ReadLine(line: string): LineResult
  {
    match Fields(line)
    case None => Skip
    case Some((name, ageText)) =>
      match ParseInt(ageText)
      case None => Bad(ageText)
      case Some(age) => Keep(Person(name, age))
  }

  /** What each line contributes, in order. */
  function ReadAll(lines: seq<string>): seq<LineResult>
  {
    if lines == [] then [] else ReadAll(lines[..|lines| - 1]) + [ReadLine(lines[|lines| - 1])]
  }

  lemma {:induction false} ReadAllAppend(a: seq<string>, b: seq<string>)
    ensures ReadAll(a + b) == ReadAll(a) + ReadAll(b)
    decreases |b|
  {
    if b == [] {
      assert a + b == a;
    } else {
      var init := b[..|b| - 1];
      assert (a + b)[..|a + b| - 1] == a + init;
      assert (a + b)[|a + b| - 1] == b[|b| - 1];
      ReadAllAppend(a, init);
    }
  }

  /** One step of the `load_persons` loop: skip the line, raise, or append the person. */
  function Step(prev: Result<seq<Person>, LoadError>, read: LineResult): Result<seq<Person>, LoadError>
  {
    if prev.Failure? then prev
    else
      match read
      case Skip => prev
      case Bad(text) => Failure(BadAge(text))
      case Keep(p) => Success(prev.value + [p])
  }

  /** The list `load_persons` builds from the line results; the first bad age raises. */
  function Collect(rs: seq<LineResult>): Result<seq<Person>, LoadError>
  {
    if rs == [] then Success([]) else Step(Collect(rs[..|rs| - 1]), rs[|rs| - 1])
  }

  /** What `load_persons` does with the lines it reads. */
  function Loaded(lines: seq<string>): Result<seq<Person>, LoadError>
  {
    Collect(ReadAll(lines))
  }

  /**
   * Collecting two runs of results is collecting the first, then the second:
   * persons keep their order and the first error wins.
   */
  lemma {:induction false} CollectAppend(a: seq<LineResult>, b: seq<LineResult>)
    ensures Collect(a + b) ==
      if Collect(a).Failure? then Collect(a)
      else if Collect(b).Failure? then Collect(b)
      else Success(Collect(a).value + Collect(b).value)
    decreases |b|
  {
    if b == [] {
      assert a + b == a;
      assert Collect(a).Success? ==> Collect(a).value + [] == Collect(a).value;
    } else {
      var init := b[..|b| - 1];
      assert (a + b)[..|a + b| - 1] == a + init;
      assert (a + b)[|a + b| - 1] == b[|b| - 1];
      CollectAppend(a, init);
      if Collect(a).Success? && Collect(init).Success? && b[|b| - 1].Keep? {
        var pa, pi, p := Collect(a).value, Collect(init).value, b[|b| - 1].person;
        assert pa + (pi + [p]) == (pa + pi) + [p];
      }
    }
  }

  /** Loading two runs of lines is loading the first, then the second. */
  lemma LoadedAppend(a: seq<string>, b: seq<string>)
    ensures Loaded(a + b) ==
      if Loaded(a).Failure? then Loaded(a)
      else if Loaded(b).Failure? then Loaded(b)
      else Success(Loaded(a).value + Loaded(b).value)
  {
    ReadAllAppend(a, b);
    CollectAppend(ReadAll(a), ReadAll(b));
  }

  /** Reading one more line is one more step of the loop. */
  lemma LoadedSnoc(lines: seq<string>, i: nat)
    requires i < |lines|
    ensures Loaded(lines[..i + 1]) == Step(Loaded(lines[..i]), ReadLine(lines[i]))
  {
    assert lines[..i + 1][..i] == lines[..i];
    var rs := ReadAll(lines[..i + 1]);
    assert rs[..|rs| - 1] == ReadAll(lines[..i]);
  }

  /** Once a line has raised, the lines after it change nothing. */
  lemma LoadedFails(lines: seq<string>, i: nat)
    requires i <= |lines| && Loaded(lines[..i]).Failure?
    ensures Loaded(lines) == Loaded(lines[..i])
  {
    calc {
      Loaded(lines);
      { assert lines[..i] + lines[i..] == lines; }
      Loaded(lines[..i] + lines[i..]);
      { LoadedAppend(lines[..i], lines[i..]); }
      Loaded(lines[..i]);
    }
  }

  /** Loading a single line is one step from the empty list. */
  lemma LoadedOne(line: string)
    ensures Loaded([line]) == Step(Success([]), ReadLine(line))
  {
    assert [line][..0] == [];
    assert ReadAll([]) == [];
    var rs := ReadAll([line]);
    assert rs == [ReadLine(line)];
    assert rs[..0] == [];
    assert Collect([]) == Success([]);
  }

  /** A line that is blank or does not have exactly two fields is skipped. */
  lemma SkippedLine(lines: seq<string>, line: string)
    requires Fields(line).None?
    ensures Loaded(lines + [line]) == Loaded(lines)
  {
    LoadedAppend(lines, [line]);
    LoadedOne(line);
    assert Loaded(lines).Success? ==> Loaded(lines).value + [] == Loaded(lines).value;
  }

  /** `name, digits` followed by a newline strips to `name` and `" " + digits` around the comma. */
  lemma StripDigitsLine(name: string, digits: string)
    requires ',' !in name && Strip(name) == name
    requires digits != [] && !IsSpace(digits[0]) && !IsSpace(digits[|digits| - 1])
    ensures Strip(name + ", " + digits + "\n") == name + [','] + (" " + digits)
  {
    var body := name + [','] + (" " + digits);
    assert name + ", " + digits + "\n" == body + ['\n'];
    assert body[0] == if name == [] then ',' else name[0];
    if name != [] {
      StripShape(name);
    }
    StripSpaceAfter(body, '\n');
    assert body[|body| - 1] == digits[|digits| - 1];
    StripUnchanged(body);
  }

  /** The fields of a `name, age` line are the name and the age's digits. */
  lemma FieldsOfLine(name: string, digits: string)
    requires ',' !in name && Strip(name) == name
    requires digits != [] && !IsSpace(digits[0]) && !IsSpace(digits[|digits| - 1]) && ',' !in digits
    ensures Fields(name + ", " + digits + "\n") == Some((name, digits))
  {
    var line := name + ", " + digits + "\n";
    var f := " " + digits;
    assert Strip(line) == name + [','] + f by {
      StripDigitsLine(name, digits);
    }
    assert Split(Strip(line), ',') == [name, f] by {
      assert ',' !in f by {
        assert f == [' '] + digits;
      }
      SplitAround(name, f, ',');
    }
    assert Strip(f) == digits by {
      assert f == [' '] + digits;
      StripSpaceBefore(' ', digits);
      StripUnchanged(digits);
    }
  }

  /**
   * A line written as `name, age` with a name free of commas and of surrounding
   * whitespace reads back as that person.
   */
  lemma LineRoundTrip(name: string, age: int)
    requires ',' !in name && Strip(name) == name
    ensures Loaded([name + ", " + FormatInt(age) + "\n"]) == Success([Person(name, age)])
  {
    var line := name + ", " + FormatInt(age) + "\n";
    FormatIntShape(age);
    FieldsOfLine(name, FormatInt(age));
    ParseFormat(age);
    assert ReadLine(line) == Keep(Person(name, age));
    LoadedOne(line);
    assert [] + [Person(name, age)] == [Person(name, age)];
  }

  /** `process_adults`: the formatted names of the adults, in load order. */
  function AdultNames(ps: seq<Person>): seq<string>
  {
    if ps == [] then []
    else AdultNames(ps[..|ps| - 1]) + (if ps[|ps| - 1].IsAdult() then [ps[|ps| - 1].FormatName()] else [])
  }

  /** The adult names are exactly the adults' upper-cased names, in order. */
  lemma {:induction false} AdultNamesSpec(ps: seq<Person>)
    ensures forall n :: n in AdultNames(ps) <==> exists p :: p in ps && p.IsAdult() && n == Upper(p.name)
    ensures |AdultNames(ps)| <= |ps|
  {
    if ps != [] {
      var init := ps[..|ps| - 1];
      AdultNamesSpec(init);
      assert forall p :: p in ps <==> p in init || p == ps[|ps| - 1];
    }
  }

  lemma {:induction false} AdultNamesAppend(a: seq<Person>, b: seq<Person>)
    ensures AdultNames(a + b) == AdultNames(a) + AdultNames(b)
    decreases |b|
  {
    if b == [] {
      assert a + b == a;
    } else {
      var init := b[..|b| - 1];
      assert (a + b)[..|a + b| - 1] == a + init;
      AdultNamesAppend(a, init);
    }
  }

  /** `load_persons` over the lines the file yields. */
  method LoadPersons(lines: seq<string>) returns (r: Result<seq<Person>, LoadError>)
    ensures r == Loaded(lines)
  {
    var persons: seq<Person> := [];
    var i := 0;
    while i < |lines|
      invariant 0 <= i <= |lines|
      invariant Loaded(lines[..i]) == Success(persons)
    {
      var read := ParseLine(lines[i]);
      LoadedSnoc(lines, i);
      match read {
        case Skip =>
        case Bad(text) =>
          LoadedFails(lines, i + 1);
          return Failure(BadAge(text));
        case Keep(p) => persons := persons + [p];
      }
      i := i + 1;
    }
    assert lines[..i] == lines;
    r := Success(persons);
  }

  /** The body of the `load_persons` loop for one line. */
  method ParseLine(raw: string) returns (read: LineResult)
    ensures read == ReadLine(raw)
  {
    var line := Strip(raw);
    if line == "" {
      return Skip;
    }
    var pieces := Split(line, ',');
    var parts := seq(|pieces|, k requires 0 <= k < |pieces| => Strip(pieces[k]));
    if |parts| != 2 {
      return Skip;
    }
    var name := parts[0];
    var age := ParseInt(parts[1]);
    if age.None? {
      return Bad(parts[1]);
    }
    return Keep(Person(name, age.value));
  }

  /** `process_adults`: the adults' formatted names, or the error loading raised. */
  method ProcessAdults(lines: seq<string>) returns (r: Result<seq<string>, LoadError>)
    ensures Loaded(lines).Failure? ==> r == Failure(Loaded(lines).error)
    ensures Loaded(lines).Success? ==> r == Success(AdultNames(Loaded(lines).value))
  {
    var loaded := LoadPersons(lines);
    match loaded {
      case Failure(e) => r := Failure(e);
      case Success(ps) => r := Success(AdultNames(ps));
    }
  }
}
