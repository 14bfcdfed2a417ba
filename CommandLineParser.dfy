/**
 * The command-line parser (LightGet/ConsoleTools/CommandLineParser.cs):
 * Analyze sorts the arguments into named ones, kept as a dictionary, and
 * positional ones; Parse binds each named argument to the property whose
 * name ToPropertyName derives from it. Reflection is left out: the target
 * type is the map from its property names to whether each is a bool, and
 * the type converters are represented by the text they are handed.
 */
module CommandLineParser {
  import opened Wrappers
  import opened Text

  datatype ParseError =
    | DuplicateName(name: string)           // ArgumentException from Dictionary.Add
    | OneLetterName(name: string)           // NotImplementedException
    | UnknownProperty(propertyName: string) // FormatException

  /** A named argument: its name and its value, None standing for null. */
  type Named = (string, Option<string>)

  /**
   * StructuredArguments: the named arguments in the order the dictionary
   * enumerates them (the order they were added, since none is removed),
   * and the other arguments in input order.
   */
  datatype StructuredArguments = StructuredArguments(named: seq<Named>, other: seq<string>)

  function Names(named: seq<Named>): seq<string> {
    seq(|named|, i requires 0 <= i < |named| => named[i].0)
  }

  predicate Distinct(names: seq<string>) {
    forall i, j :: 0 <= i < j < |names| ==> names[i] != names[j]
  }

  /** Dictionary.Add on the named arguments: it refuses a name already present. */
  function Add(a: StructuredArguments, name: string, value: Option<string>): (r: Result<StructuredArguments, ParseError>)
    ensures r.Failure? <==> name in Names(a.named)
    ensures r.Failure? ==> r.error == DuplicateName(name)
    ensures r.Success? ==> r.value.other == a.other && r.value.named == a.named + [(name, value)]
  {
    if name in Names(a.named) then Failure(DuplicateName(name))
    else Success(StructuredArguments(a.named + [(name, value)], a.other))
  }

  /** `s.Split(new[] {c}, 2)` with ElementAtOrDefault(1): the text before the first `c`, and the text after it if there is one. */
  function SplitAtFirst(s: string, c: char): (r: (string, Option<string>))
    ensures c !in r.0
    ensures r.1.None? ==> r.0 == s
    ensures r.1.Some? ==> s == r.0 + [c] + r.1.value
  {
    if s == [] then ([], None)
    else if s[0] == c then ([], Some(s[1..]))
    else
      var r := SplitAtFirst(s[1..], c);
      ([s[0]] + r.0, r.1)
  }

  /** What Analyze keeps from one argument to the next: the arguments so far and the pending single-dash name. */
  datatype Analyzer = Analyzer(arguments: StructuredArguments, currentName: Option<string>)

  const Start := Analyzer(StructuredArguments([], []), None)

  /** Records a pending name with a null value. */
  function Flush(st: Analyzer): Result<StructuredArguments, ParseError> {
    if st.currentName.Some? then Add(st.arguments, st.currentName.value, None) else Success(st.arguments)
  }

  /** One turn of Analyze's loop. */
  function Step(st: Analyzer, arg: string): Result<Analyzer, ParseError> {
    if StartsWith(arg, "--") then
      var flushed :- Flush(st);
      var parts := SplitAtFirst(TrimStart(arg, '-'), '=');
      var added :- Add(flushed, parts.0, parts.1);
      Success(Analyzer(added, None))
    else if StartsWith(arg, "-") then
      var flushed :- Flush(st);
      Success(Analyzer(flushed, Some(TrimStart(arg, '-'))))
    else if st.currentName.Some? then
      var added :- Add(st.arguments, st.currentName.value, Some(arg));
      Success(Analyzer(added, None))
    else
      Success(Analyzer(StructuredArguments(st.arguments.named, st.arguments.other + [arg]), None))
  }

  /** Analyze's loop over the remaining arguments. */
  function Run(st: Analyzer, args: seq<string>): Result<Analyzer, ParseError>
    decreases |args|
  {
    if args == [] then Success(st)
    else
      match Step(st, args[0])
      case Failure(e) => Failure(e)
      case Success(next) => Run(next, args[1..])
  }

  /** What Analyze returns; a name still pending at the end is dropped. */
  function Analysis(args: seq<string>): Result<StructuredArguments, ParseError> {
    match Run(Start, args)
    case Failure(e) => Failure(e)
    case Success(st) => Success(st.arguments)
  }

  /** CommandLineParser.Analyze. */
  method Analyze(args: seq<string>) returns (r: Result<StructuredArguments, ParseError>)
    ensures r == Analysis(args)
  {
    var named: seq<Named> := [];
    var other: seq<string> := [];
    var currentName: Option<string> := None;
    for i := 0 to |args|
      invariant Run(Start, args) == Run(Analyzer(StructuredArguments(named, other), currentName), args[i..])
    {
      var arg := args[i];
      assert args[i..][0] == arg && args[i..][1..] == args[i + 1..];
      if StartsWith(arg, "--") {
        if currentName.Some? {
          if currentName.value in Names(named) {
            return Failure(DuplicateName(currentName.value));
          }
          named := named + [(currentName.value, None)];
          currentName := None;
        }

        var parts := SplitAtFirst(TrimStart(arg, '-'), '=');
        if parts.0 in Names(named) {
          return Failure(DuplicateName(parts.0));
        }
        named := named + [parts];
        continue;
      }

      if StartsWith(arg, "-") {
        if currentName.Some? {
          if currentName.value in Names(named) {
            return Failure(DuplicateName(currentName.value));
          }
          named := named + [(currentName.value, None)];
        }

        currentName := Some(TrimStart(arg, '-'));
        continue;
      }

      if currentName.Some? {
        if currentName.value in Names(named) {
          return Failure(DuplicateName(currentName.value));
        }
        named := named + [(currentName.value, Some(arg))];
        currentName := None;
      } else {
        other := other + [arg];
      }
    }
    assert args[|args|..] == [];
    return Success(StructuredArguments(named, other));
  }

  // ---------------------------------------------------------------------
  // Property names.

  /**
   * The replacement of `(?:^|-).` in ToPropertyName past the first
   * character: a dash and the character after it (unless that is a line
   * feed, which `.` does not match) become that character in upper case.
   */
  function UpperAfterDashes(s: string): (r: string)
    ensures |r| <= |s|
  {
    if |s| >= 2 && s[0] == '-' && s[1] != '\n' then [ToUpperAscii(s[1])] + UpperAfterDashes(s[2..])
    else if s == [] then []
    else [s[0]] + UpperAfterDashes(s[1..])
  }

  /** CommandLineParser.ToPropertyName: the first character and each one after a dash in upper case, those dashes dropped. */
  function ToPropertyName(parameterName: string): (name: string)
    ensures |name| <= |parameterName|
    ensures parameterName != [] ==> name != [] && name[0] == ToUpperAscii(parameterName[0])
  {
    if parameterName == [] then [] else [ToUpperAscii(parameterName[0])] + UpperAfterDashes(parameterName[1..])
  }

  /** A word with its first letter in upper case. */
  function Capitalized(word: string): string
    requires word != []
  {
    [ToUpperAscii(word[0])] + word[1..]
  }

  /** A kebab-case word list as one PascalCase name. */
  function PascalCase(words: seq<string>): string
    requires forall i :: 0 <= i < |words| ==> words[i] != []
  {
    if words == [] then [] else Capitalized(words[0]) + PascalCase(words[1..])
  }

  /** Words of a kebab-case name: non-empty, without dashes, not starting with a line feed. */
  predicate KebabWords(words: seq<string>) {
    forall i :: 0 <= i < |words| ==> words[i] != [] && '-' !in words[i] && words[i][0] != '\n'
  }

  lemma {:induction false} UpperAfterDashesSkipsPlainText(u: string, t: string)
    requires '-' !in u
    ensures UpperAfterDashes(u + t) == u + UpperAfterDashes(t)
  {
    if u != [] {
      assert u[0] in u;
      assert (u + t)[0] == u[0] && (u + t)[1..] == u[1..] + t;
      assert forall c :: c in u[1..] ==> c in u;
      UpperAfterDashesSkipsPlainText(u[1..], t);
      assert UpperAfterDashes(u + t) == [u[0]] + UpperAfterDashes(u[1..] + t);
      assert [u[0]] + u[1..] == u;
    } else {
      assert u + t == t;
    }
  }

  lemma {:induction false} UpperAfterDashesOfJoin(words: seq<string>)
    requires |words| >= 1 && KebabWords(words)
    ensures UpperAfterDashes(['-'] + Join(words, '-')) == PascalCase(words)
  {
    var w := words[0];
    if |words| == 1 {
      assert ['-'] + Join(words, '-') == ['-'] + w;
      assert (['-'] + w)[2..] == w[1..];
      UpperAfterDashesSkipsPlainText(w[1..], []);
      assert w[1..] + [] == w[1..];
      assert PascalCase(words[1..]) == [];
    } else {
      var tail := ['-'] + Join(words[1..], '-');
      assert ['-'] + Join(words, '-') == ['-'] + w + tail;
      assert (['-'] + w + tail)[2..] == w[1..] + tail;
      UpperAfterDashesSkipsPlainText(w[1..], tail);
      UpperAfterDashesOfJoin(words[1..]);
    }
  }

  /** A kebab-case name becomes the PascalCase property name: `byte-value` is `ByteValue`. */
  lemma KebabToPascal(words: seq<string>)
    requires |words| >= 1 && KebabWords(words)
    ensures ToPropertyName(Join(words, '-')) == PascalCase(words)
  {
    var s := Join(words, '-');
    assert s[0] == words[0][0];
    assert (['-'] + s)[2..] == s[1..];
    UpperAfterDashesOfJoin(words);
  }

  // ---------------------------------------------------------------------
  // Binding.

  datatype PropertyKind = BoolProperty | OtherProperty

  /** What SetValue receives: true for a bool switch given no value, else the converter's reading of the text. */
  datatype PropertyValue = True | FromInvariantString(text: Option<string>)

  /** CommandLineParser.ConvertValue. */
  function ConvertValue(kind: PropertyKind, valueString: Option<string>): (v: PropertyValue)
    ensures v == True <==> valueString.None? && kind == BoolProperty
    ensures v != True ==> v.text == valueString
  {
    if valueString.None? && kind == BoolProperty then True else FromInvariantString(valueString)
  }

  /** A name Parse can bind: not a single letter, and naming a property of the target type. */
  predicate Bindable(name: string, properties: map<string, PropertyKind>) {
    |name| != 1 && ToPropertyName(name) in properties
  }

  /** The set of properties a list of named arguments addresses. */
  function Addressed(named: seq<Named>): set<string> {
    set i | 0 <= i < |named| :: ToPropertyName(named[i].0)
  }

  /**
   * The bindings of Parse's loop from the named arguments still to bind,
   * the properties set so far in `bound`: it succeeds exactly when every
   * name is bindable, and then it has set every property addressed.
   */
  function BindFrom(bound: map<string, PropertyValue>, named: seq<Named>, properties: map<string, PropertyKind>)
    : (r: Result<map<string, PropertyValue>, ParseError>)
    ensures r.Success? <==> forall i :: 0 <= i < |named| ==> Bindable(named[i].0, properties)
    ensures r.Success? ==> r.value.Keys == bound.Keys + Addressed(named)
    decreases |named|
  {
    if named == [] then Success(bound)
    else
      var name := named[0].0;
      if |name| == 1 then Failure(OneLetterName(name))
      else
        var propertyName := ToPropertyName(name);
        if propertyName !in properties then Failure(UnknownProperty(propertyName))
        else BindFrom(bound[propertyName := ConvertValue(properties[propertyName], named[0].1)], named[1..], properties)
  }

  /** What Parse sets on the new object: its properties by name, to what each is set. */
  function ParseSpec(args: seq<string>, properties: map<string, PropertyKind>): Result<map<string, PropertyValue>, ParseError> {
    match Analysis(args)
    case Failure(e) => Failure(e)
    case Success(arguments) => BindFrom(map[], arguments.named, properties)
  }

  /** CommandLineParser.Parse. */
  method Parse(args: seq<string>, properties: map<string, PropertyKind>) returns (r: Result<map<string, PropertyValue>, ParseError>)
    ensures r == ParseSpec(args, properties)
  {
    var arguments := Analyze(args);
    if arguments.Failure? {
      return Failure(arguments.error);
    }
    var named := arguments.value.named;
    var result: map<string, PropertyValue> := map[];
    for i := 0 to |named|
      invariant BindFrom(map[], named, properties) == BindFrom(result, named[i..], properties)
    {
      assert named[i..][0] == named[i] && named[i..][1..] == named[i + 1..];
      var key := named[i].0;
      if |key| == 1 {
        return Failure(OneLetterName(key));
      }

      var propertyName := ToPropertyName(key);
      if propertyName !in properties {
        return Failure(UnknownProperty(propertyName));
      }

      var value := ConvertValue(properties[propertyName], named[i].1);
      result := result[propertyName := value];
    }
    assert named[|named|..] == [];
    return Success(result);
  }

  // ---------------------------------------------------------------------
  // Properties of Analyze.

  lemma {:induction false} SplitAtFirstOf(k: string, v: string)
    requires '=' !in k
    ensures SplitAtFirst(k + ['='] + v, '=') == (k, Some(v))
  {
    if k != [] {
      assert k[0] in k;
      assert forall c :: c in k[1..] ==> c in k;
      assert (k + ['='] + v)[1..] == k[1..] + ['='] + v;
      SplitAtFirstOf(k[1..], v);
      assert [k[0]] + k[1..] == k;
    } else {
      assert k + ['='] + v == ['='] + v;
    }
  }

  lemma {:induction false} SplitAtFirstWithout(k: string)
    requires '=' !in k
    ensures SplitAtFirst(k, '=') == (k, None)
  {
    if k != [] {
      assert k[0] in k;
      assert forall c :: c in k[1..] ==> c in k;
      SplitAtFirstWithout(k[1..]);
      assert [k[0]] + k[1..] == k;
    }
  }

  /** `-x`, for x not starting with a dash, is a single-dash argument naming x. */
  lemma SingleDash(x: string)
    requires x == [] || x[0] != '-'
    ensures StartsWith("-" + x, "-") && !StartsWith("-" + x, "--")
    ensures TrimStart("-" + x, '-') == x
  {
    assert ("-" + x)[..1] == "-";
    if |x| >= 1 {
      assert ("-" + x)[..2][1] == x[0];
    }
    TrimOneDash(x);
  }

  lemma TrimOneDash(x: string)
    requires x == [] || x[0] != '-'
    ensures TrimStart(['-'] + x, '-') == x
  {
    assert (['-'] + x)[1..] == x;
  }

  lemma TrimTwoDashes(x: string)
    requires x == [] || x[0] != '-'
    ensures TrimStart("--" + x, '-') == x
  {
    assert ("--" + x)[1..] == ['-'] + x;
    TrimOneDash(x);
  }

  /** `--name=value` names `name` and takes everything after the first `=` as its value, further `=` included. */
  lemma LongOptionTakesValue(k: string, v: string)
    requires '=' !in k && (k == [] || k[0] != '-')
    ensures Analysis(["--" + k + "=" + v]) == Success(StructuredArguments([(k, Some(v))], []))
  {
    var arg := "--" + k + "=" + v;
    assert arg == "--" + (k + ['='] + v);
    assert arg[..2] == "--";
    TrimTwoDashes(k + ['='] + v);
    SplitAtFirstOf(k, v);
    var one := StructuredArguments([(k, Some(v))], []);
    assert Names([]) == [] && forall x: Named :: [] + [x] == [x];
    assert Add(StructuredArguments([], []), k, Some(v)) == Success(one);
    assert Step(Start, arg) == Success(Analyzer(one, None));
    RunOne(Start, arg);
  }

  lemma RunOne(st: Analyzer, arg: string)
    ensures Run(st, [arg]) == Step(st, arg)
  {
    assert [arg][1..] == [];
    if Step(st, arg).Success? {
      assert Run(Step(st, arg).value, []) == Step(st, arg);
    }
  }

  lemma RunTwo(st: Analyzer, first: string, second: string)
    requires Step(st, first).Success?
    ensures Run(st, [first, second]) == Step(Step(st, first).value, second)
  {
    assert [first, second][1..] == [second];
    RunOne(Step(st, first).value, second);
  }

  /** An argument that does not start with a dash does not start with two. */
  lemma NoDashNoDoubleDash(arg: string)
    requires !StartsWith(arg, "-")
    ensures !StartsWith(arg, "--")
  {
  }

  /** `--name` without `=` names `name` with a null value. */
  lemma LongSwitchHasNoValue(k: string)
    requires '=' !in k && (k == [] || k[0] != '-')
    ensures Analysis(["--" + k]) == Success(StructuredArguments([(k, None)], []))
  {
    assert ("--" + k)[..2] == "--";
    TrimTwoDashes(k);
    SplitAtFirstWithout(k);
    var one := StructuredArguments([(k, None)], []);
    assert Names([]) == [] && forall x: Named :: [] + [x] == [x];
    assert Add(StructuredArguments([], []), k, None) == Success(one);
    assert Step(Start, "--" + k) == Success(Analyzer(one, None));
    RunOne(Start, "--" + k);
  }

  /** `-name value` names `name` with the next argument as its value. */
  lemma ShortOptionTakesNextArgument(k: string, v: string)
    requires k == [] || k[0] != '-'
    requires !StartsWith(v, "-")
    ensures Analysis(["-" + k, v]) == Success(StructuredArguments([(k, Some(v))], []))
  {
    SingleDash(k);
    NoDashNoDoubleDash(v);
    var pending := Analyzer(StructuredArguments([], []), Some(k));
    assert Step(Start, "-" + k) == Success(pending);
    var one := StructuredArguments([(k, Some(v))], []);
    assert Names([]) == [] && forall x: Named :: [] + [x] == [x];
    assert Add(pending.arguments, k, Some(v)) == Success(one);
    assert Step(pending, v) == Success(Analyzer(one, None));
    RunTwo(Start, "-" + k, v);
  }

  /** A `-name` followed by another option is recorded with a null value before that option. */
  lemma PendingNameIsFlushed(a: string, b: string)
    requires a == [] || a[0] != '-'
    requires '=' !in b && (b == [] || b[0] != '-')
    requires a != b
    ensures Analysis(["-" + a, "--" + b]) == Success(StructuredArguments([(a, None), (b, None)], []))
  {
    SingleDash(a);
    assert ("--" + b)[..2] == "--";
    TrimTwoDashes(b);
    SplitAtFirstWithout(b);
    var pending := Analyzer(StructuredArguments([], []), Some(a));
    assert Step(Start, "-" + a) == Success(pending);
    var one := StructuredArguments([(a, None)], []);
    assert Names([]) == [] && forall x: Named :: [] + [x] == [x];
    assert Flush(pending) == Success(one);
    assert Names(one.named) == [a];
    var two := StructuredArguments([(a, None), (b, None)], []);
    assert two.named == one.named + [(b, None)];
    assert Add(one, b, None) == Success(two);
    assert Step(pending, "--" + b) == Success(Analyzer(two, None));
    RunTwo(Start, "-" + a, "--" + b);
  }

  /** A `-name` followed by another `-name` is recorded with a null value, and the second name waits for its value. */
  lemma PendingNameIsFlushedBySingleDash(a: string, b: string)
    requires a == [] || a[0] != '-'
    requires b == [] || b[0] != '-'
    ensures Run(Start, ["-" + a, "-" + b]) == Success(Analyzer(StructuredArguments([(a, None)], []), Some(b)))
    ensures Analysis(["-" + a, "-" + b]) == Success(StructuredArguments([(a, None)], []))
  {
    SingleDash(a);
    SingleDash(b);
    var pending := Analyzer(StructuredArguments([], []), Some(a));
    assert Step(Start, "-" + a) == Success(pending);
    var one := StructuredArguments([(a, None)], []);
    assert Names([]) == [] && forall x: Named :: [] + [x] == [x];
    assert Flush(pending) == Success(one);
    assert Step(pending, "-" + b) == Success(Analyzer(one, Some(b)));
    RunTwo(Start, "-" + a, "-" + b);
  }

  /** A `-name` that is the last argument is not recorded at all. */
  lemma TrailingNameIsDropped(k: string)
    requires k == [] || k[0] != '-'
    ensures Analysis(["-" + k]) == Success(StructuredArguments([], []))
  {
    SingleDash(k);
    assert Step(Start, "-" + k) == Success(Analyzer(StructuredArguments([], []), Some(TrimStart("-" + k, '-'))));
    RunOne(Start, "-" + k);
  }

  /** Naming the same argument twice is refused, as Dictionary.Add refuses the second key. */
  lemma RepeatedNameIsRejected(k: string)
    requires '=' !in k && (k == [] || k[0] != '-')
    ensures Analysis(["--" + k, "--" + k]) == Failure(DuplicateName(k))
  {
    assert ("--" + k)[..2] == "--";
    TrimTwoDashes(k);
    SplitAtFirstWithout(k);
    var one := StructuredArguments([(k, None)], []);
    assert Names([]) == [] && forall x: Named :: [] + [x] == [x];
    assert Add(StructuredArguments([], []), k, None) == Success(one);
    assert Step(Start, "--" + k) == Success(Analyzer(one, None));
    assert Names(one.named) == [k];
    assert Step(Analyzer(one, None), "--" + k) == Failure(DuplicateName(k));
    RunTwo(Start, "--" + k, "--" + k);
  }

  lemma {:induction false} BareArgumentsAreAppended(other: seq<string>, args: seq<string>)
    requires forall i :: 0 <= i < |args| ==> !StartsWith(args[i], "-")
    ensures Run(Analyzer(StructuredArguments([], other), None), args) == Success(Analyzer(StructuredArguments([], other + args), None))
    decreases |args|
  {
    if args == [] {
      assert other + args == other;
    } else {
      NoDashNoDoubleDash(args[0]);
      BareArgumentsAreAppended(other + [args[0]], args[1..]);
      assert other + [args[0]] + args[1..] == other + args;
    }
  }

  /** Arguments that do not start with a dash are positional, kept in their order. */
  lemma BareArgumentsArePositional(args: seq<string>)
    requires forall i :: 0 <= i < |args| ==> !StartsWith(args[i], "-")
    ensures Analysis(args) == Success(StructuredArguments([], args))
  {
    BareArgumentsAreAppended([], args);
    assert [] + args == args;
  }

  lemma AddKeepsDistinct(a: StructuredArguments, name: string, value: Option<string>)
    requires Distinct(Names(a.named))
    requires Add(a, name, value).Success?
    ensures Distinct(Names(Add(a, name, value).value.named))
  {
    assert Names(a.named + [(name, value)]) == Names(a.named) + [name];
  }

  lemma StepKeepsDistinct(st: Analyzer, arg: string)
    requires Distinct(Names(st.arguments.named))
    requires Step(st, arg).Success?
    ensures Distinct(Names(Step(st, arg).value.arguments.named))
  {
    if st.currentName.Some? && Flush(st).Success? {
      AddKeepsDistinct(st.arguments, st.currentName.value, None);
    }
    if StartsWith(arg, "--") {
      var flushed := Flush(st).value;
      var parts := SplitAtFirst(TrimStart(arg, '-'), '=');
      AddKeepsDistinct(flushed, parts.0, parts.1);
    } else if !StartsWith(arg, "-") && st.currentName.Some? {
      AddKeepsDistinct(st.arguments, st.currentName.value, Some(arg));
    }
  }

  lemma {:induction false} RunKeepsDistinct(st: Analyzer, args: seq<string>)
    requires Distinct(Names(st.arguments.named))
    requires Run(st, args).Success?
    ensures Distinct(Names(Run(st, args).value.arguments.named))
    decreases |args|
  {
    if args != [] {
      StepKeepsDistinct(st, args[0]);
      RunKeepsDistinct(Step(st, args[0]).value, args[1..]);
    }
  }

  /** The named arguments of a successful analysis have distinct names. */
  lemma AnalysisNamesAreDistinct(args: seq<string>)
    requires Analysis(args).Success?
    ensures Distinct(Names(Analysis(args).value.named))
  {
    RunKeepsDistinct(Start, args);
  }

  // ---------------------------------------------------------------------
  // Properties of Parse.

  /** The parser's test: `--byte-value=1` hands "1" to the converter of property ByteValue. */
  lemma ByteValueExample()
    ensures ParseSpec(["--byte-value=1"], map["ByteValue" := OtherProperty])
      == Success(map["ByteValue" := FromInvariantString(Some("1"))])
  {
    assert "--" + "byte-value" + "=" + "1" == "--byte-value=1";
    LongOptionTakesValue("byte-value", "1");
    ByteValueName();
    var named: seq<Named> := [("byte-value", Some("1"))];
    assert named[1..] == [];
  }

  /** `byte-value` addresses property ByteValue. */
  lemma ByteValueName()
    ensures ToPropertyName("byte-value") == "ByteValue"
  {
    ByteValueWords();
    KebabToPascal(["byte", "value"]);
  }

  lemma ByteValueWords()
    ensures Join(["byte", "value"], '-') == "byte-value"
    ensures PascalCase(["byte", "value"]) == "ByteValue"
  {
    var words := ["byte", "value"];
    assert words[1..] == ["value"];
    assert ["value"][1..] == [];
    assert Join(words, '-') == "byte" + "-" + "value";
    assert Capitalized("byte") == "Byte";
    assert Capitalized("value") == "Value";
    assert PascalCase(words) == "Byte" + "Value";
  }

  /** A bool property named without a value is set to true. */
  lemma BoolSwitchIsSetTrue(k: string, properties: map<string, PropertyKind>)
    requires '=' !in k && (k == [] || k[0] != '-')
    requires Bindable(k, properties) && properties[ToPropertyName(k)] == BoolProperty
    ensures ParseSpec(["--" + k], properties) == Success(map[ToPropertyName(k) := True])
  {
    LongSwitchHasNoValue(k);
    var named: seq<Named> := [(k, None)];
    assert named[1..] == [];
    var p := ToPropertyName(k);
    assert ConvertValue(properties[p], None) == True;
    assert BindFrom(map[], named, properties) == BindFrom(map[p := True], named[1..], properties);
  }

  /** One-letter argument names are refused. */
  lemma OneLetterNameIsRejected(c: char, v: string, properties: map<string, PropertyKind>)
    requires c != '-' && c != '='
    ensures ParseSpec(["--" + [c] + "=" + v], properties) == Failure(OneLetterName([c]))
  {
    LongOptionTakesValue([c], v);
  }

  /** A name that addresses no property is refused. */
  lemma UnknownNameIsRejected(k: string, v: string, properties: map<string, PropertyKind>)
    requires '=' !in k && (k == [] || k[0] != '-')
    requires |k| != 1 && ToPropertyName(k) !in properties
    ensures ParseSpec(["--" + k + "=" + v], properties) == Failure(UnknownProperty(ToPropertyName(k)))
  {
    LongOptionTakesValue(k, v);
  }

  /** Positional arguments set no property. */
  lemma PositionalArgumentsSetNothing(args: seq<string>, properties: map<string, PropertyKind>)
    requires forall i :: 0 <= i < |args| ==> !StartsWith(args[i], "-")
    ensures ParseSpec(args, properties) == Success(map[])
  {
    BareArgumentsArePositional(args);
  }

  /** Parse sets only properties of the target type. */
  lemma ParseSetsDeclaredProperties(args: seq<string>, properties: map<string, PropertyKind>)
    requires ParseSpec(args, properties).Success?
    ensures ParseSpec(args, properties).value.Keys <= properties.Keys
  {
    var named := Analysis(args).value.named;
    forall p | p in Addressed(named)
      ensures p in properties
    {
      var i :| 0 <= i < |named| && ToPropertyName(named[i].0) == p;
      assert Bindable(named[i].0, properties);
    }
  }

  /**
   * When two names address the same property, the later one wins: each
   * property is set from the last named argument that addresses it.
   */
  lemma {:induction false} LastBindingWins(bound: map<string, PropertyValue>, named: seq<Named>, properties: map<string, PropertyKind>, j: nat)
    requires BindFrom(bound, named, properties).Success?
    requires j < |named|
    requires forall k :: j < k < |named| ==> ToPropertyName(named[k].0) != ToPropertyName(named[j].0)
    ensures var p := ToPropertyName(named[j].0);
      BindFrom(bound, named, properties).value[p] == ConvertValue(properties[p], named[j].1)
    decreases |named|
  {
    var p0 := ToPropertyName(named[0].0);
    assert Bindable(named[0].0, properties);
    var next := bound[p0 := ConvertValue(properties[p0], named[0].1)];
    BindFromUnfolds(bound, named, properties);
    var rest := BindFrom(next, named[1..], properties);
    var p := ToPropertyName(named[j].0);
    if j == 0 {
      UnaddressedKeepsBinding(next, named[1..], properties, p0);
    } else {
      assert forall k :: j - 1 < k < |named[1..]| ==> named[1..][k] == named[k + 1];
      LastBindingWins(next, named[1..], properties, j - 1);
      assert named[1..][j - 1] == named[j];
    }
    assert rest.value[p] == ConvertValue(properties[p], named[j].1);
  }

  lemma BindFromUnfolds(bound: map<string, PropertyValue>, named: seq<Named>, properties: map<string, PropertyKind>)
    requires named != [] && Bindable(named[0].0, properties)
    ensures var p0 := ToPropertyName(named[0].0);
      BindFrom(bound, named, properties) == BindFrom(bound[p0 := ConvertValue(properties[p0], named[0].1)], named[1..], properties)
  {
  }

  lemma {:induction false} UnaddressedKeepsBinding(bound: map<string, PropertyValue>, named: seq<Named>, properties: map<string, PropertyKind>, p: string)
    requires BindFrom(bound, named, properties).Success?
    requires p in bound
    requires forall k :: 0 <= k < |named| ==> ToPropertyName(named[k].0) != p
    ensures BindFrom(bound, named, properties).value[p] == bound[p]
    decreases |named|
  {
    if named != [] {
      var p0 := ToPropertyName(named[0].0);
      assert Bindable(named[0].0, properties);
      assert p0 != p;
      UnaddressedKeepsBinding(bound[p0 := ConvertValue(properties[p0], named[0].1)], named[1..], properties, p);
    }
  }
}
