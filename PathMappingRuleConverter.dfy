/**
 * The type converter that reads a mapping rule from a command-line string
 * (LightGet/Logic/PathMappingRuleConverter.cs): a comma-separated list of the
 * words full, host, port, root and relative, in any letter case.
 */
module PathMappingRuleConverter {
  import opened Wrappers
  import opened Text
  import opened MappingRules

  /** The FormatException Parse raises, naming the tokens it did not recognise. */
  datatype FormatError = UnknownRules(words: set<string>)

  const KnownWords: set<string> := {"full", "host", "port", "root", "relative"}

  /** The tokens of a rule string as a case-insensitive set (Split(',') then ToSet). */
  function Words(value: string): set<string> {
    set p | p in Split(value, ',') :: Lower(p)
  }

  /**
   * The rule a set of lower-case words denotes: a flag is set when its own
   * word or "full" is present, and "root" also sets the path flag; any other
   * word is an error.
   */
  function RuleFromWords(w: set<string>): (r: Result<PathMappingRule, FormatError>)
    ensures r.Failure? <==> !(w <= KnownWords)
    ensures r.Failure? ==> r.error.words == w - KnownWords && r.error.words != {}
    ensures r.Success? && "full" in w ==> r.value == DefaultRule
    ensures r.Success? ==> (r.value.includeHost <==> "host" in w || "full" in w)
    ensures r.Success? ==> (r.value.includePort <==> "port" in w || "full" in w)
    ensures r.Success? ==> (r.value.includeParentPath <==> "root" in w || "full" in w)
    ensures r.Success? ==> (r.value.includePath <==> "relative" in w || r.value.includeParentPath)
  {
    if w <= KnownWords then
      var full := "full" in w;
      Success(PathMappingRule(
        includeHost := "host" in w || full,
        includePort := "port" in w || full,
        includeParentPath := "root" in w || full,
        includePath := "relative" in w || "root" in w || full))
    else
      Failure(UnknownRules(w - KnownWords))
  }

  /** What Parse returns: the default rule for blank input, otherwise the rule of its words. */
  function RuleFor(value: Option<string>): Result<PathMappingRule, FormatError> {
    if IsNullOrWhiteSpace(value) then Success(DefaultRule) else RuleFromWords(Words(value.value))
  }

  /** PathMappingRuleConverter.Parse: removes each known word from the token set, then rejects what is left. */
  method Parse(value: Option<string>) returns (r: Result<PathMappingRule, FormatError>)
    ensures r == RuleFor(value)
  {
    var rule := DefaultRule;
    if IsNullOrWhiteSpace(value) {
      return Success(rule);
    }

    var parts := Words(value.value);
    ghost var words := parts;
    var full := "full" in parts;
    parts := parts - {"full"};

    var removed := "host" in parts;
    parts := parts - {"host"};
    rule := rule.(includeHost := removed || full);
    assert rule.includeHost == ("host" in words || "full" in words);

    removed := "port" in parts;
    parts := parts - {"port"};
    rule := rule.(includePort := removed || full);
    assert rule.includePort == ("port" in words || "full" in words);

    removed := "root" in parts;
    parts := parts - {"root"};
    rule := rule.(includeParentPath := removed || full);
    assert rule.includeParentPath == ("root" in words || "full" in words);

    removed := "relative" in parts;
    parts := parts - {"relative"};
    rule := rule.(includePath := removed || rule.includeParentPath);
    assert rule.includePath == ("relative" in words || "root" in words || "full" in words);

    assert parts == words - KnownWords;
    if parts != {} {  // parts.Count > 0
      r := Failure(UnknownRules(parts));
    } else {
      assert words <= KnownWords;
      r := Success(rule);
    }
    assert r == RuleFromWords(words);
  }

  /** Blank input gives the default rule, all four flags set. */
  lemma BlankGivesDefault(value: Option<string>)
    requires IsNullOrWhiteSpace(value)
    ensures RuleFor(value) == Success(PathMappingRule(true, true, true, true))
  {
  }

  /** Unicode space separators are white space too: an ideographic space and an en quad give the default rule. */
  lemma UnicodeSpaceGivesDefault()
    ensures RuleFor(Some("\U{3000}")) == Success(PathMappingRule(true, true, true, true))
    ensures RuleFor(Some(" \U{2000}\U{2029}")) == Success(PathMappingRule(true, true, true, true))
  {
    BlankGivesDefault(Some("\U{3000}"));
    var s := " \U{2000}\U{2029}";
    assert IsWhiteSpace(s[0]) && IsWhiteSpace(s[1]) && IsWhiteSpace(s[2]);
    BlankGivesDefault(Some(s));
  }

  /** A token without commas is one word. */
  lemma SingleWord(a: string)
    requires ',' !in a
    ensures Words(a) == {Lower(a)}
  {
    SplitWithoutSeparator(a, ',');
  }

  /** Two comma-free tokens joined by one comma are two words. */
  lemma TwoWords(a: string, b: string)
    requires ',' !in a && ',' !in b
    ensures Words(a + [','] + b) == {Lower(a), Lower(b)}
  {
    SplitAppend(a, b, ',');
    SplitWithoutSeparator(a, ',');
    SplitWithoutSeparator(b, ',');
    assert Split(a + [','] + b, ',') == [a, b];
  }

  /** A string whose lower-cased form starts with a letter is not blank. */
  lemma NotBlank(s: string, first: char)
    requires |s| > 0 && ToLowerAscii(s[0]) == first && 'a' <= first <= 'z'
    ensures !IsNullOrWhiteSpace(Some(s))
  {
    assert !IsWhiteSpace(s[0]);
  }

  /** "full", in any letter case, sets every flag. */
  lemma FullRule(a: string)
    requires ',' !in a && Lower(a) == "full"
    ensures RuleFor(Some(a)) == Success(PathMappingRule(true, true, true, true))
  {
    SingleWord(a);
    NotBlank(a, 'f');
  }

  /** "host,port", in any letter case, sets the host and port flags and no path flag. */
  lemma HostPortRule(a: string, b: string)
    requires ',' !in a && ',' !in b && Lower(a) == "host" && Lower(b) == "port"
    ensures RuleFor(Some(a + [','] + b)) == Success(PathMappingRule(true, true, false, false))
  {
    TwoWords(a, b);
    NotBlank(a + [','] + b, 'h');
  }

  /** "root", in any letter case, sets the parent-path and path flags but not host or port. */
  lemma RootRule(a: string)
    requires ',' !in a && Lower(a) == "root"
    ensures RuleFor(Some(a)) == Success(PathMappingRule(false, false, true, true))
  {
    SingleWord(a);
    NotBlank(a, 'r');
  }

  /** "relative", in any letter case, sets the path flag but not the parent-path flag. */
  lemma RelativeRule(a: string)
    requires ',' !in a && Lower(a) == "relative"
    ensures RuleFor(Some(a)) == Success(PathMappingRule(false, false, false, true))
  {
    SingleWord(a);
    NotBlank(a, 'r');
  }

  /** Tokens are not trimmed: "host, port" has the unknown word " port". */
  lemma SpaceAfterCommaIsRejected(a: string, b: string)
    requires ',' !in a && ',' !in b && Lower(a) == "host" && Lower(b) == " port"
    ensures RuleFor(Some(a + [','] + b)) == Failure(UnknownRules({" port"}))
  {
    TwoWords(a, b);
    NotBlank(a + [','] + b, 'h');
    assert {"host", " port"} - KnownWords == {" port"};
  }

  /** Lower-casing the input leaves its set of words unchanged. */
  lemma {:induction false} WordsOfLower(s: string)
    ensures Words(Lower(s)) == Words(s)
  {
    SplitLower(s, ',');
    var ps := Split(s, ',');
    var lps := Split(Lower(s), ',');
    assert lps == LowerAll(ps);
    forall w | w in Words(Lower(s)) ensures w in Words(s) {
      var i :| 0 <= i < |lps| && w == Lower(lps[i]);
      LowerIdempotent(ps[i]);
      assert w == Lower(ps[i]);
    }
    forall w | w in Words(s) ensures w in Words(Lower(s)) {
      var i :| 0 <= i < |ps| && w == Lower(ps[i]);
      LowerIdempotent(ps[i]);
      assert w == Lower(lps[i]);
    }
  }

  /** Letter case does not matter: "HOST,Port" means what "host,port" means. */
  lemma CaseInsensitive(s: string)
    ensures RuleFor(Some(Lower(s))) == RuleFor(Some(s))
  {
    WordsOfLower(s);
    assert IsNullOrWhiteSpace(Some(Lower(s))) == IsNullOrWhiteSpace(Some(s));
  }

  /** The words of two lists joined by a comma are the words of both. */
  lemma WordsAppend(a: string, b: string)
    ensures Words(a + [','] + b) == Words(a) + Words(b)
  {
    SplitAppend(a, b, ',');
  }

  /** Repeating tokens is harmless, since they are collected into a set: tokens already present add nothing. */
  lemma RepeatedTokensAreHarmless(a: string, b: string)
    requires !IsNullOrWhiteSpace(Some(a)) && Words(b) <= Words(a)
    ensures RuleFor(Some(a + [','] + b)) == RuleFor(Some(a))
  {
    WordsAppend(a, b);
    assert Words(a + [','] + b) == Words(a);
    var i :| 0 <= i < |a| && !IsWhiteSpace(a[i]);
    assert (a + [','] + b)[i] == a[i];
    assert !IsNullOrWhiteSpace(Some(a + [','] + b));
  }

  /** "full" among known words, in any position and any ASCII casing, gives the default rule. */
  lemma FullAmongKnownWords(s: string)
    requires "full" in Words(s) && Words(s) <= KnownWords
    ensures RuleFor(Some(s)) == Success(DefaultRule)
  {
    var p :| p in Split(s, ',') && Lower(p) == "full";
    assert ToLowerAscii(p[0]) == 'f';
    SplitPieceWithin(s, ',', p, p[0]);
    var i :| 0 <= i < |s| && s[i] == p[0];
    assert !IsWhiteSpace(s[i]);
  }

  /** "full" between two lists of known words gives the default rule, whatever the other words are. */
  lemma FullAnywhere(a: string, f: string, b: string)
    requires ',' !in f && Lower(f) == "full"
    requires Words(a) <= KnownWords && Words(b) <= KnownWords
    ensures RuleFor(Some(a + [','] + f + [','] + b)) == Success(DefaultRule)
  {
    WordsAppend(a + [','] + f, b);
    WordsAppend(a, f);
    SingleWord(f);
    FullAmongKnownWords(a + [','] + f + [','] + b);
  }

  /** "full" first or last: "full,host" and "host,full" give the default rule too. */
  lemma FullAtEitherEnd(a: string, f: string)
    requires ',' !in f && Lower(f) == "full"
    requires Words(a) <= KnownWords
    ensures RuleFor(Some(f + [','] + a)) == Success(DefaultRule)
    ensures RuleFor(Some(a + [','] + f)) == Success(DefaultRule)
  {
    SingleWord(f);
    WordsAppend(f, a);
    WordsAppend(a, f);
    FullAmongKnownWords(f + [','] + a);
    FullAmongKnownWords(a + [','] + f);
  }
}
