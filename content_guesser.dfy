/** Content-type guessing for windows (xpra/server/window/content_guesser.py): the rule
    parsers for `content-type` and `content-categories` configuration lines, the lookups
    over the resulting tables, and the module-level tables that are loaded once. */
module ContentGuesser {
  import opened Wrappers
  import opened PyStrings
  import opened PyDicts

  /** The `re` module as the parsers use it: whether a pattern compiles, and whether
      `re.compile(pattern).search(text)` finds a match. */
  datatype RegexEngine = RegexEngine(compiles: string -> bool, search: (string, string) -> bool)

  /** A window property value: one str, bytes or other value, or a list or tuple of them.
      Any other value (an int, a bool, `None`) is known by its `str()` and its truthiness. */
  datatype Scalar = Str(s: string) | Bytes(b: string) | Other(text: string, truthy: bool)
  datatype PropValue = One(v: Scalar) | Items(elems: seq<Scalar>)

  /** A window as the guesser sees it: its property names and values. */
  type Window = map<string, PropValue>

  /** An exception the lookups let escape. */
  datatype PyError = UnboundLocalError(name: string) | TypeError(argument: string)

  /** `str(value)`. */
  function StrOf(v: Scalar): string {
    match v
    case Str(s) => s
    case Bytes(b) => BytesRepr(b)
    case Other(text, _) => text
  }

  /** The texts searched for one property value: `str()` of every element of a list or
      tuple, in order, else of the value itself. */
  function SearchedTexts(p: PropValue): (r: seq<string>)
    ensures p.One? ==> r == [StrOf(p.v)]
    ensures p.Items? ==> |r| == |p.elems| && forall i :: 0 <= i < |r| ==> r[i] == StrOf(p.elems[i])
  {
    match p
    case One(v) => [StrOf(v)]
    case Items(elems) => seq(|elems|, i requires 0 <= i < |elems| => StrOf(elems[i]))
  }

  /** Python truthiness of an optional string result: present and not empty. */
  predicate Truthy(o: Option<string>) {
    o.Some? && o.value != ""
  }

  // ---------------------------------------------------------------------------------
  // content-type rules: "<property>:<regex>=<content type>"
  // ---------------------------------------------------------------------------------

  /** `content_type_defs`: property name -> (regex -> content type), in insertion order. The
      source keys the inner dict by the compiled pattern, and patterns compiled from the
      same source text are equal, so the regex text stands for it. */
  type Defs = Dict<string, Dict<string, string>>

  /** A dict as the source builds it: distinct keys, and distinct regexes per property. */
  ghost predicate WellFormedDefs(defs: Defs) {
    DistinctKeys(defs) && forall i :: 0 <= i < |defs| ==> DistinctKeys(defs[i].1)
  }

  /** The line test both parsers share: `line.startswith("#") or not line.strip()`. */
  predicate CommentOrBlank(line: string) {
    StartsWith(line, "#") || Strip(line, IsSpace) == []
  }

  /** A line is skipped when it starts with '#' or holds nothing but whitespace; a line
      that does not start with '#' and contains a ':' is never skipped. */
  lemma CommentOrBlankSpec(line: string)
    ensures CommentOrBlank(line) <==>
      StartsWith(line, "#") || forall i :: 0 <= i < |line| ==> IsSpace(line[i])
    ensures ':' in line && !StartsWith(line, "#") ==> !CommentOrBlank(line)
  {
    StripSpec(line, IsSpace);
    if ':' in line {
      var i :| 0 <= i < |line| && line[i] == ':';
      assert !IsSpace(line[i]);
    }
  }

  datatype EntryParse =
    | Ignored                      // a comment or blank line: accepted, nothing added
    | MissingEquals                // no '=': rejected
    | MissingColon                 // no ':' before the last '=': rejected
    | Definition(prop: string, regex: string, contentType: string)

  /** The line of `process_content_type_entry` once its line end is removed. */
  function EntryLine(entry: string): string {
    RStrip(entry, IsLineEnd)
  }

  /** The parsing half of `process_content_type_entry`: the line is split at its LAST '=',
      the part before it at its FIRST ':'; the content type is the text after the '=' up to
      its first ':', stripped of whitespace. */
  function ParseEntry(entry: string): EntryParse {
    var line := EntryLine(entry);
    if CommentOrBlank(line) then Ignored
    else match SplitLast(line, '=')
      case None => MissingEquals
      case Some((lhs, rhs)) =>
        match SplitFirst(lhs, ':')
        case None => MissingColon
        case Some((prop, regex)) => Definition(prop, regex, Strip(BeforeFirst(rhs, ':'), IsSpace))
  }

  /** How a line parses: skipped lines are the comment and blank ones, a line without '='
      lacks it, and a definition is the line's text cut at the first ':' and the last '='. */
  lemma ParseEntrySpec(entry: string)
    ensures ParseEntry(entry).Ignored? <==> CommentOrBlank(EntryLine(entry))
    ensures ParseEntry(entry).MissingEquals? <==> !CommentOrBlank(EntryLine(entry)) && '=' !in EntryLine(entry)
    ensures ParseEntry(entry).Definition? ==>
      var p := ParseEntry(entry);
      var line := EntryLine(entry);
      var n := |p.prop| + |p.regex| + 2;
      ':' !in p.prop && n <= |line| && line[..n] == p.prop + [':'] + p.regex + ['=']
      && '=' !in line[n..] && p.contentType == Strip(BeforeFirst(line[n..], ':'), IsSpace)
  {
    var line := EntryLine(entry);
    if !CommentOrBlank(line) && SplitLast(line, '=').Some? {
      var (lhs, rhs) := SplitLast(line, '=').value;
      if SplitFirst(lhs, ':').Some? {
        var (prop, regex) := SplitFirst(lhs, ':').value;
        assert line == prop + [':'] + regex + ['='] + rhs;
        assert line[|prop| + |regex| + 2..] == rhs;
      }
    }
  }

  /** A line starting with '#' is a comment even when it has the rule format. */
  lemma CommentEntryIgnored(entry: string)
    requires StartsWith(entry, "#")
    ensures ParseEntry(entry) == Ignored
  {
    var line := EntryLine(entry);
    assert !IsLineEnd(entry[0]);
    assert |line| > 0;
    assert line[0] == entry[0];
    assert StartsWith(line, "#");
  }

  /** The line end removed before parsing never reaches the content type: it is cut off
      with the text after a ':' or stripped with the surrounding whitespace. */
  lemma ContentTypeIgnoresLineEnd(rhs: string)
    ensures Strip(BeforeFirst(RStrip(rhs, IsLineEnd), ':'), IsSpace) == Strip(BeforeFirst(rhs, ':'), IsSpace)
  {
    var r := RStrip(rhs, IsLineEnd);
    var t := rhs[|r|..];
    assert rhs == r + t;
    if ':' in r {
      BeforeFirstAppend(r, t, ':');
    } else {
      assert ':' !in rhs by {
        forall i | 0 <= i < |rhs| ensures rhs[i] != ':' {
          if i >= |r| { assert IsLineEnd(rhs[i]); }
        }
      }
      assert forall i :: 0 <= i < |t| ==> IsSpace(t[i]) by {
        forall i | 0 <= i < |t| ensures IsSpace(t[i]) {
          assert t[i] == rhs[|r| + i];
          assert IsLineEnd(rhs[|r| + i]);
        }
      }
      RStripDropped(r, t, IsSpace);
    }
  }

  /** Every line in the rule format parses to its three parts, whatever line end it
      carries: the text before the first ':' is the property, everything up to the last
      '=' the regex. */
  lemma ParseEntryOfRule(prop: string, regex: string, rhs: string)
    requires ':' !in prop && '=' !in rhs && (prop == [] || prop[0] != '#')
    ensures ParseEntry(prop + [':'] + regex + ['='] + rhs)
         == Definition(prop, regex, Strip(BeforeFirst(rhs, ':'), IsSpace))
  {
    var lhs := prop + [':'] + regex;
    var entry := lhs + ['='] + rhs;
    var rest := RStrip(rhs, IsLineEnd);
    var line := lhs + ['='] + rest;
    assert entry == (lhs + ['=']) + rhs;
    RStripAppend(lhs + ['='], rhs, IsLineEnd);
    assert EntryLine(entry) == line;
    assert '=' !in rest by {
      forall i | 0 <= i < |rest| ensures rest[i] != '=' { assert rest[i] == rhs[i]; }
    }
    assert line[|prop|] == ':';
    assert !StartsWith(line, "#") by {
      if prop != [] { assert line[0] == prop[0]; }
    }
    CommentOrBlankSpec(line);
    SplitLastUnique(lhs, rest, '=');
    SplitFirstUnique(prop, regex, ':');
    ContentTypeIgnoresLineEnd(rhs);
  }

  /** `content_type_defs.setdefault(prop, {})[regex] = (regex, content_type)`. */
  function AddDefinition(defs: Defs, prop: string, regex: string, contentType: string): Defs {
    var rules := match Get(defs, prop) case Some(r) => r case None => [];
    Put(defs, prop, Put(rules, regex, contentType))
  }

  /** Adding a rule keeps the table well formed. */
  lemma AddDefinitionWellFormed(defs: Defs, prop: string, regex: string, contentType: string)
    requires WellFormedDefs(defs)
    ensures WellFormedDefs(AddDefinition(defs, prop, regex, contentType))
  {
    var rules := match Get(defs, prop) case Some(r) => r case None => [];
    var r := AddDefinition(defs, prop, regex, contentType);
    PutDistinct(defs, prop, Put(rules, regex, contentType));
    assert DistinctKeys(rules) by {
      if Get(defs, prop).Some? {
        var i :| 0 <= i < |defs| && defs[i] == (prop, rules);
      }
    }
    PutDistinct(rules, regex, contentType);
    forall i | 0 <= i < |r| ensures DistinctKeys(r[i].1) {
      AddDefinitionValue(defs, prop, regex, contentType, rules, i);
    }
  }

  lemma AddDefinitionValue(defs: Defs, prop: string, regex: string, contentType: string, rules: Dict<string, string>, i: nat)
    requires WellFormedDefs(defs) && DistinctKeys(Put(rules, regex, contentType))
    requires rules == match Get(defs, prop) case Some(r) => r case None => []
    requires i < |AddDefinition(defs, prop, regex, contentType)|
    ensures DistinctKeys(AddDefinition(defs, prop, regex, contentType)[i].1)
  {
    var r := AddDefinition(defs, prop, regex, contentType);
    PutDistinct(defs, prop, Put(rules, regex, contentType));
    assert Keys(r)[i] == r[i].0;
    GetAt(r, i);
    PutGet(defs, prop, Put(rules, regex, contentType), r[i].0);
    if r[i].0 != prop {
      var j :| 0 <= j < |defs| && defs[j] == (r[i].0, r[i].1);
    }
  }

  /** Adding a rule changes only its property's rules, keeps every property's place, and
      makes the rule's regex give its content type. */
  lemma AddDefinitionSpec(defs: Defs, prop: string, regex: string, contentType: string, q: string)
    ensures Keys(AddDefinition(defs, prop, regex, contentType))
         == if prop in Keys(defs) then Keys(defs) else Keys(defs) + [prop]
    ensures q != prop ==> Get(AddDefinition(defs, prop, regex, contentType), q) == Get(defs, q)
    ensures Get(AddDefinition(defs, prop, regex, contentType), prop).Some?
    ensures Get(Get(AddDefinition(defs, prop, regex, contentType), prop).value, regex) == Some(contentType)
  {
    var rules := match Get(defs, prop) case Some(r) => r case None => [];
    PutGet(defs, prop, Put(rules, regex, contentType), q);
    PutGet(defs, prop, Put(rules, regex, contentType), prop);
    PutGet(rules, regex, contentType, regex);
  }

  /** What one entry does to the table: a definition whose regex compiles is added. */
  function ApplyEntry(defs: Defs, entry: string, re: RegexEngine): Defs {
    match ParseEntry(entry)
    case Definition(prop, regex, contentType) =>
      if re.compiles(regex) then AddDefinition(defs, prop, regex, contentType) else defs
    case _ => defs
  }

  /** The result of `process_content_type_entry`. */
  predicate EntryAccepted(entry: string, re: RegexEngine) {
    match ParseEntry(entry)
    case Ignored => true
    case Definition(_, regex, _) => re.compiles(regex)
    case _ => false
  }

  /** The table after processing `entries` in order. */
  function ApplyEntries(defs: Defs, entries: seq<string>, re: RegexEngine): Defs {
    if entries == [] then defs
    else ApplyEntry(ApplyEntries(defs, entries[..|entries| - 1], re), entries[|entries| - 1], re)
  }

  lemma {:induction false} ApplyEntriesWellFormed(defs: Defs, entries: seq<string>, re: RegexEngine)
    requires WellFormedDefs(defs)
    ensures WellFormedDefs(ApplyEntries(defs, entries, re))
  {
    if entries != [] {
      var prev := ApplyEntries(defs, entries[..|entries| - 1], re);
      ApplyEntriesWellFormed(defs, entries[..|entries| - 1], re);
      match ParseEntry(entries[|entries| - 1])
      case Definition(prop, regex, contentType) =>
        if re.compiles(regex) { AddDefinitionWellFormed(prev, prop, regex, contentType); }
      case _ =>
    }
  }

  /** An entry that adds a rule for `prop`. */
  predicate DefinesProperty(entry: string, re: RegexEngine, prop: string) {
    ParseEntry(entry).Definition? && ParseEntry(entry).prop == prop && re.compiles(ParseEntry(entry).regex)
  }

  lemma ApplyEntryKeys(defs: Defs, entry: string, re: RegexEngine, prop: string)
    ensures prop in Keys(ApplyEntry(defs, entry, re)) <==> prop in Keys(defs) || DefinesProperty(entry, re, prop)
  {
  }

  lemma ApplyEntryKeepsKey(defs: Defs, entry: string, re: RegexEngine, prop: string)
    requires prop in Keys(defs)
    ensures prop in Keys(ApplyEntry(defs, entry, re))
  {
  }

  lemma ApplyLastEntryKeys(defs: Defs, entries: seq<string>, re: RegexEngine, prop: string)
    requires entries != []
    ensures prop in Keys(ApplyEntries(defs, entries, re)) <==>
      prop in Keys(ApplyEntries(defs, entries[..|entries| - 1], re)) || DefinesProperty(entries[|entries| - 1], re, prop)
  {
    ApplyEntryKeys(ApplyEntries(defs, entries[..|entries| - 1], re), entries[|entries| - 1], re, prop);
  }

  /** Processing more entries never removes a property. */
  lemma {:induction false} ApplyEntriesKeepsKeys(defs: Defs, entries: seq<string>, re: RegexEngine, prop: string)
    requires prop in Keys(defs)
    ensures prop in Keys(ApplyEntries(defs, entries, re))
  {
    if entries != [] {
      ApplyEntriesKeepsKeys(defs, entries[..|entries| - 1], re, prop);
      ApplyLastEntryKeys(defs, entries, re, prop);
    }
  }

  /** An accepted definition's property is in the table afterwards. */
  lemma {:induction false} ApplyEntriesAddsKeys(defs: Defs, entries: seq<string>, re: RegexEngine, prop: string, i: nat)
    requires i < |entries| && DefinesProperty(entries[i], re, prop)
    ensures prop in Keys(ApplyEntries(defs, entries, re))
  {
    var n := |entries| - 1;
    var prev := ApplyEntries(defs, entries[..n], re);
    if i == n {
      ApplyEntryKeys(prev, entries[n], re, prop);
    } else {
      assert entries[..n][i] == entries[i];
      ApplyEntriesAddsKeys(defs, entries[..n], re, prop, i);
      ApplyEntryKeepsKey(prev, entries[n], re, prop);
    }
  }

  /** A property of the table was there before or was defined by some entry. */
  lemma {:induction false} ApplyEntriesKeysOrigin(defs: Defs, entries: seq<string>, re: RegexEngine, prop: string)
    requires prop in Keys(ApplyEntries(defs, entries, re)) && prop !in Keys(defs)
    ensures exists i :: 0 <= i < |entries| && DefinesProperty(entries[i], re, prop)
  {
    var n := |entries| - 1;
    ApplyLastEntryKeys(defs, entries, re, prop);
    if !DefinesProperty(entries[n], re, prop) {
      ApplyEntriesKeysOrigin(defs, entries[..n], re, prop);
      var i :| 0 <= i < n && DefinesProperty(entries[..n][i], re, prop);
      assert entries[..n][i] == entries[i];
    }
  }

  /** The properties of the table are those it had and those some accepted entry defines. */
  lemma ApplyEntriesKeys(defs: Defs, entries: seq<string>, re: RegexEngine, prop: string)
    ensures prop in Keys(ApplyEntries(defs, entries, re)) <==>
      prop in Keys(defs) || exists i :: 0 <= i < |entries| && DefinesProperty(entries[i], re, prop)
  {
    if prop in Keys(defs) {
      ApplyEntriesKeepsKeys(defs, entries, re, prop);
    }
    if prop in Keys(ApplyEntries(defs, entries, re)) && prop !in Keys(defs) {
      ApplyEntriesKeysOrigin(defs, entries, re, prop);
    }
    if exists i :: 0 <= i < |entries| && DefinesProperty(entries[i], re, prop) {
      var i :| 0 <= i < |entries| && DefinesProperty(entries[i], re, prop);
      ApplyEntriesAddsKeys(defs, entries, re, prop, i);
    }
  }

  // ---- guess_content_type_from_defs -----------------------------------------------

  /** Element `i` is the first along `xs` for which `f` gives a result. */
  predicate FirstSomeAt<T, U>(xs: seq<T>, f: T -> Option<U>, i: int) {
    0 <= i < |xs| && f(xs[i]).Some? && forall j :: 0 <= j < i ==> f(xs[j]).None?
  }

  /** A loop over `xs` that returns the first result `f` gives, or `None` past the end. */
  function FirstSome<T, U>(xs: seq<T>, f: T -> Option<U>): Option<U> {
    if xs == [] then None
    else if f(xs[0]).Some? then f(xs[0])
    else FirstSome(xs[1..], f)
  }

  /** The loop finds nothing exactly when no element gives a result, and otherwise returns
      the result of the first element that gives one. */
  lemma {:induction false} FirstSomeSpec<T, U>(xs: seq<T>, f: T -> Option<U>)
    ensures FirstSome(xs, f).None? <==> forall i :: 0 <= i < |xs| ==> f(xs[i]).None?
    ensures FirstSome(xs, f).Some? ==> exists i :: FirstSomeAt(xs, f, i) && FirstSome(xs, f) == f(xs[i])
  {
    if xs != [] {
      if f(xs[0]).Some? {
        assert FirstSomeAt(xs, f, 0);
      } else {
        FirstSomeSpec(xs[1..], f);
        assert forall i :: 1 <= i < |xs| ==> xs[i] == xs[1..][i - 1];
        if FirstSome(xs, f).Some? {
          var i :| FirstSomeAt(xs[1..], f, i) && FirstSome(xs[1..], f) == f(xs[1..][i]);
          assert FirstSomeAt(xs, f, i + 1);
        }
      }
    }
  }

  /** A rule `(regex, content type)` gives its type when the regex finds a match in `text`. */
  function RuleMatch(re: RegexEngine, text: string): ((string, string)) -> Option<string> {
    (rule: (string, string)) => if re.search(rule.0, text) then Some(rule.1) else None
  }

  /** The content type of the first rule, in insertion order, whose regex matches `text`. */
  function MatchRules(rules: Dict<string, string>, text: string, re: RegexEngine): Option<string> {
    FirstSome(rules, RuleMatch(re, text))
  }

  /** No match exactly when no regex finds `text`; otherwise the type of the first rule
      whose regex does. */
  lemma MatchRulesSpec(rules: Dict<string, string>, text: string, re: RegexEngine)
    ensures MatchRules(rules, text, re).None? <==> forall k :: 0 <= k < |rules| ==> !re.search(rules[k].0, text)
    ensures MatchRules(rules, text, re).Some? ==> exists k :: (0 <= k < |rules| && re.search(rules[k].0, text)
      && MatchRules(rules, text, re).value == rules[k].1
      && forall k' :: 0 <= k' < k ==> !re.search(rules[k'].0, text))
  {
    var f := RuleMatch(re, text);
    FirstSomeSpec(rules, f);
    assert forall k :: 0 <= k < |rules| ==> (f(rules[k]).Some? <==> re.search(rules[k].0, text));
    if MatchRules(rules, text, re).Some? {
      var k :| FirstSomeAt(rules, f, k) && MatchRules(rules, text, re) == f(rules[k]);
    }
  }

  function TextMatch(rules: Dict<string, string>, re: RegexEngine): string -> Option<string> {
    text => MatchRules(rules, text, re)
  }

  /** The match for the first of `texts`, in order, that some rule matches. */
  function MatchTexts(rules: Dict<string, string>, texts: seq<string>, re: RegexEngine): Option<string> {
    FirstSome(texts, TextMatch(rules, re))
  }

  /** No match exactly when no text is matched; otherwise the match of the first text
      that is, so earlier values of a list take precedence. */
  lemma MatchTextsSpec(rules: Dict<string, string>, texts: seq<string>, re: RegexEngine)
    ensures MatchTexts(rules, texts, re).None? <==> forall j :: 0 <= j < |texts| ==> MatchRules(rules, texts[j], re).None?
    ensures MatchTexts(rules, texts, re).Some? ==> exists j :: (0 <= j < |texts|
      && MatchTexts(rules, texts, re) == MatchRules(rules, texts[j], re)
      && forall j' :: 0 <= j' < j ==> MatchRules(rules, texts[j'], re).None?)
  {
    var f := TextMatch(rules, re);
    FirstSomeSpec(texts, f);
    if MatchTexts(rules, texts, re).Some? {
      var j :| FirstSomeAt(texts, f, j) && MatchTexts(rules, texts, re) == f(texts[j]);
    }
  }

  /** A property of the table gives a match when the window has it and one of its values
      is matched by one of its rules. */
  function PropertyMatch(window: Window, re: RegexEngine): ((string, Dict<string, string>)) -> Option<string> {
    (p: (string, Dict<string, string>)) => if p.0 in window then MatchTexts(p.1, SearchedTexts(window[p.0]), re) else None
  }

  /** `guess_content_type_from_defs` on a loaded table: the first property, in table order,
      that is present on the window and matched; `None` when no property matches. */
  function FirstMatch(defs: Defs, window: Window, re: RegexEngine): Option<string> {
    FirstSome(defs, PropertyMatch(window, re))
  }

  /** No type exactly when no property of the table is on the window with a matched value;
      otherwise the match of the first property, in table order, that is. */
  lemma FirstMatchSpec(defs: Defs, window: Window, re: RegexEngine)
    ensures FirstMatch(defs, window, re).None? <==> forall i :: 0 <= i < |defs| ==>
      defs[i].0 !in window || MatchTexts(defs[i].1, SearchedTexts(window[defs[i].0]), re).None?
    ensures FirstMatch(defs, window, re).Some? ==> exists i :: (0 <= i < |defs| && defs[i].0 in window
      && FirstMatch(defs, window, re) == MatchTexts(defs[i].1, SearchedTexts(window[defs[i].0]), re)
      && forall i' :: 0 <= i' < i ==> PropertyMatch(window, re)(defs[i']).None?)
  {
    var f := PropertyMatch(window, re);
    FirstSomeSpec(defs, f);
    if FirstMatch(defs, window, re).Some? {
      var i :| FirstSomeAt(defs, f, i) && FirstMatch(defs, window, re) == f(defs[i]);
    }
  }

  /** The loops of `guess_content_type_from_defs` with their early return. */
  method FindContentType(defs: Defs, window: Window, re: RegexEngine) returns (r: Option<string>)
    ensures r == FirstMatch(defs, window, re)
  {
    var i := 0;
    while i < |defs|
      invariant 0 <= i <= |defs|
      invariant FirstMatch(defs, window, re) == FirstSome(defs[i..], PropertyMatch(window, re))
    {
      var prop := defs[i].0;
      var rules := defs[i].1;
      assert defs[i..][1..] == defs[i + 1..];
      if prop in window {
        var texts := SearchedTexts(window[prop]);
        var j := 0;
        while j < |texts|
          invariant 0 <= j <= |texts|
          invariant MatchTexts(rules, texts, re) == FirstSome(texts[j..], TextMatch(rules, re))
        {
          assert texts[j..][1..] == texts[j + 1..];
          var k := 0;
          while k < |rules|
            invariant 0 <= k <= |rules|
            invariant MatchRules(rules, texts[j], re) == FirstSome(rules[k..], RuleMatch(re, texts[j]))
          {
            assert rules[k..][1..] == rules[k + 1..];
            if re.search(rules[k].0, texts[j]) {
              assert MatchRules(rules, texts[j], re) == Some(rules[k].1);
              assert MatchTexts(rules, texts, re) == Some(rules[k].1);
              assert PropertyMatch(window, re)(defs[i]) == Some(rules[k].1);
              return Some(rules[k].1);
            }
            k := k + 1;
          }
          j := j + 1;
        }
        assert PropertyMatch(window, re)(defs[i]).None?;
      }
      i := i + 1;
    }
    return None;
  }

  // ---------------------------------------------------------------------------------
  // content-categories files: "<category>:<content type>"
  // ---------------------------------------------------------------------------------

  /** One line of `load_content_categories_file`: comment and blank lines and lines
      without ':' are skipped; otherwise the key is the text before the LAST ':', stripped
      of tabs and spaces and lowercased, and the value the text after it, stripped. */
  function ParseCategoryLine(line: string): Option<(string, string)> {
    var l := EntryLine(line);
    if CommentOrBlank(l) then None
    else match SplitLast(l, ':')
      case None => None
      case Some((category, contentType)) =>
        Some((Lower(Strip(category, IsTabOrSpace)), Strip(contentType, IsTabOrSpace)))
  }

  /** A line is skipped exactly when it is a comment, blank, or lacks a ':'; keys come out
      lowercase. */
  lemma ParseCategoryLineSpec(line: string)
    ensures ParseCategoryLine(line).None? <==> CommentOrBlank(EntryLine(line)) || ':' !in EntryLine(line)
    ensures ParseCategoryLine(line).Some? ==> Lower(ParseCategoryLine(line).value.0) == ParseCategoryLine(line).value.0
  {
    var l := EntryLine(line);
    if !CommentOrBlank(l) && SplitLast(l, ':').Some? {
      LowerIdempotent(Strip(SplitLast(l, ':').value.0, IsTabOrSpace));
    }
  }

  /** A category line splits at its last ':'; its line end is removed before the value is
      stripped of tabs and spaces. */
  lemma ParseCategoryLineOf(category: string, contentType: string)
    requires ':' !in contentType && (category == [] || category[0] != '#')
    ensures ParseCategoryLine(category + [':'] + contentType)
         == Some((Lower(Strip(category, IsTabOrSpace)), Strip(RStrip(contentType, IsLineEnd), IsTabOrSpace)))
  {
    var rest := RStrip(contentType, IsLineEnd);
    var line := category + [':'] + rest;
    assert category + [':'] + contentType == (category + [':']) + contentType;
    RStripAppend(category + [':'], contentType, IsLineEnd);
    assert EntryLine(category + [':'] + contentType) == line;
    assert ':' !in rest by {
      forall i | 0 <= i < |rest| ensures rest[i] != ':' { assert rest[i] == contentType[i]; }
    }
    assert line[|category|] == ':';
    assert !StartsWith(line, "#") by {
      if category != [] { assert line[0] == category[0]; }
    }
    CommentOrBlankSpec(line);
    SplitLastUnique(category, rest, ':');
  }

  /** The dict `load_content_categories_file` returns for the lines of one file. */
  function CategoriesOf(lines: seq<string>): Dict<string, string> {
    Collect(lines, ParseCategoryLine)
  }

  /** A category is present exactly when some line names it; its type is the one the LAST
      line naming it gives, and every category is lowercase. */
  lemma CategoriesOfLastWins(lines: seq<string>, k: string)
    ensures Get(CategoriesOf(lines), k).None? <==> forall i :: 0 <= i < |lines| ==> !Assigns(ParseCategoryLine, lines[i], k)
    ensures Get(CategoriesOf(lines), k).Some? ==> Lower(k) == k
    ensures Get(CategoriesOf(lines), k).Some? ==>
      exists i :: LastAssigns(lines, ParseCategoryLine, k, i) && ParseCategoryLine(lines[i]).value.1 == Get(CategoriesOf(lines), k).value
  {
    CollectLastWins(lines, ParseCategoryLine, k);
    if Get(CategoriesOf(lines), k).Some? {
      var i :| LastAssigns(lines, ParseCategoryLine, k, i) && ParseCategoryLine(lines[i]).value.1 == Get(CategoriesOf(lines), k).value;
      ParseCategoryLineSpec(lines[i]);
    }
  }

  /** The line loop of `load_content_categories_file`. */
  method LoadContentCategoriesFile(lines: seq<string>) returns (d: Dict<string, string>)
    ensures d == CategoriesOf(lines)
    ensures DistinctKeys(d)
  {
    d := [];
    var i := 0;
    while i < |lines|
      invariant 0 <= i <= |lines|
      invariant d == CategoriesOf(lines[..i])
    {
      CollectPrefix(lines, ParseCategoryLine, i);
      var line := EntryLine(lines[i]);
      if CommentOrBlank(line) {
        i := i + 1;
        continue;
      }
      var parts := SplitLast(line, ':');
      if parts.None? {
        i := i + 1;
        continue;
      }
      var (category, contentType) := parts.value;
      d := Put(d, Lower(Strip(category, IsTabOrSpace)), Strip(contentType, IsTabOrSpace));
      i := i + 1;
    }
    assert lines[..i] == lines;
    CollectDistinct(lines, ParseCategoryLine);
  }

  /** A configuration directory's `*.conf` files, in sorted order, each as its lines; a
      missing directory has none. */
  type ConfDir = seq<seq<string>>

  /** The dict `load_content_categories_dir` returns: the files' dicts merged in order. */
  function CategoriesOfDir(files: ConfDir): Dict<string, string> {
    UpdateEach(files, CategoriesOf)
  }

  lemma {:induction false} CategoriesOfDirDistinct(files: ConfDir)
    ensures DistinctKeys(CategoriesOfDir(files))
  {
    if files != [] {
      CategoriesOfDirDistinct(files[..|files| - 1]);
      UpdateDistinct(CategoriesOfDir(files[..|files| - 1]), CategoriesOf(files[|files| - 1]));
    }
  }

  /** A later file's definition of a category replaces an earlier one's. */
  lemma CategoriesOfDirLaterFileWins(files: ConfDir, k: string)
    requires files != [] && Get(CategoriesOf(files[|files| - 1]), k).Some?
    ensures Get(CategoriesOfDir(files), k) == Get(CategoriesOf(files[|files| - 1]), k)
  {
    CollectDistinct(files[|files| - 1], ParseCategoryLine);
    UpdateGet(CategoriesOfDir(files[..|files| - 1]), CategoriesOf(files[|files| - 1]), k);
  }

  /** A category is in the directory's dict exactly when some file defines it, and its type
      is the one the LAST file defining it gives. */
  lemma CategoriesOfDirLastWins(files: ConfDir, k: string)
    ensures Get(CategoriesOfDir(files), k).None? <==>
      forall j :: 0 <= j < |files| ==> k !in Keys(CategoriesOf(files[j]))
    ensures Get(CategoriesOfDir(files), k).Some? ==>
      exists j :: LastHolds(files, CategoriesOf, k, j) && Get(CategoriesOfDir(files), k) == Get(CategoriesOf(files[j]), k)
  {
    forall i | 0 <= i < |files| ensures DistinctKeys(CategoriesOf(files[i])) {
      CollectDistinct(files[i], ParseCategoryLine);
    }
    UpdateEachLastWins(files, CategoriesOf, k);
  }

  /** The file loop of `load_content_categories_dir`. */
  method LoadContentCategoriesDir(files: ConfDir) returns (d: Dict<string, string>)
    ensures d == CategoriesOfDir(files)
  {
    d := [];
    var i := 0;
    while i < |files|
      invariant 0 <= i <= |files|
      invariant d == CategoriesOfDir(files[..i])
    {
      assert files[..i + 1][..i] == files[..i];
      var fileDict := LoadContentCategoriesFile(files[i]);
      d := Update(d, fileDict);
      i := i + 1;
    }
    assert files[..i] == files;
  }

  /** The system directories' dicts merged in order. */
  function MergeDirs(dirs: seq<ConfDir>): Dict<string, string> {
    if dirs == [] then [] else Update(MergeDirs(dirs[..|dirs| - 1]), CategoriesOfDir(dirs[|dirs| - 1]))
  }

  function RepeatUpdate(d: Dict<string, string>, e: Dict<string, string>, n: nat): Dict<string, string>
    decreases n
  {
    if n == 0 then d else RepeatUpdate(Update(d, e), e, n - 1)
  }

  /** `load_categories_to_type` as written: each user directory is loaded, but the dict
      merged for it is `v`, the LAST system directory's, and `v` is unbound when there is no
      system directory. */
  function CategoriesToTypeOf(systemDirs: seq<ConfDir>, userDirs: seq<ConfDir>, loadUserDirs: bool)
    : Result<Dict<string, string>, PyError>
  {
    var merged := MergeDirs(systemDirs);
    if !loadUserDirs || userDirs == [] then Ok(merged)
    else if systemDirs == [] then Err(UnboundLocalError("v"))
    else Ok(RepeatUpdate(merged, CategoriesOfDir(systemDirs[|systemDirs| - 1]), |userDirs|))
  }

  lemma {:induction false} MergeDirsDistinct(dirs: seq<ConfDir>)
    ensures DistinctKeys(MergeDirs(dirs))
  {
    if dirs != [] {
      MergeDirsDistinct(dirs[..|dirs| - 1]);
      UpdateDistinct(MergeDirs(dirs[..|dirs| - 1]), CategoriesOfDir(dirs[|dirs| - 1]));
    }
  }

  lemma {:induction false} RepeatUpdateSettled(d: Dict<string, string>, e: Dict<string, string>, n: nat)
    requires Update(d, e) == d
    ensures RepeatUpdate(d, e, n) == d
    decreases n
  {
    if n > 0 { RepeatUpdateSettled(d, e, n - 1); }
  }

  /** The contents of the user directories never reach the result: with at least one
      system directory the result is the merge of the system directories alone; with none,
      loading any user directory raises. */
  lemma UserCategoryDirsIgnored(systemDirs: seq<ConfDir>, userDirs: seq<ConfDir>, loadUserDirs: bool)
    ensures systemDirs != [] ==> CategoriesToTypeOf(systemDirs, userDirs, loadUserDirs) == Ok(MergeDirs(systemDirs))
    ensures CategoriesToTypeOf(systemDirs, userDirs, loadUserDirs).Err? <==> systemDirs == [] && loadUserDirs && userDirs != []
  {
    if systemDirs != [] && loadUserDirs && userDirs != [] {
      var n := |systemDirs| - 1;
      var last := CategoriesOfDir(systemDirs[n]);
      MergeDirsDistinct(systemDirs[..n]);
      CategoriesOfDirDistinct(systemDirs[n]);
      UpdateIdempotent(MergeDirs(systemDirs[..n]), last);
      RepeatUpdateSettled(MergeDirs(systemDirs), last, |userDirs|);
    }
  }

  /** The two directory loops of `load_categories_to_type`, with `v` unbound until the
      first system directory is loaded. */
  method LoadCategoriesToType(systemDirs: seq<ConfDir>, userDirs: seq<ConfDir>, loadUserDirs: bool)
    returns (r: Result<Dict<string, string>, PyError>)
    ensures r == CategoriesToTypeOf(systemDirs, userDirs, loadUserDirs)
  {
    var d: Dict<string, string> := [];
    var v: Option<Dict<string, string>> := None;
    var i := 0;
    while i < |systemDirs|
      invariant 0 <= i <= |systemDirs|
      invariant d == MergeDirs(systemDirs[..i])
      invariant v.None? <==> i == 0
      invariant i > 0 ==> v == Some(CategoriesOfDir(systemDirs[i - 1]))
    {
      assert systemDirs[..i + 1][..i] == systemDirs[..i];
      var loaded := LoadContentCategoriesDir(systemDirs[i]);
      v := Some(loaded);
      d := Update(d, loaded);
      i := i + 1;
    }
    assert systemDirs[..i] == systemDirs;
    if loadUserDirs {
      var j := 0;
      while j < |userDirs|
        invariant 0 <= j <= |userDirs|
        invariant v.Some? || j == 0
        invariant j == 0 ==> d == MergeDirs(systemDirs)
        invariant v.Some? ==> CategoriesToTypeOf(systemDirs, userDirs, loadUserDirs) == Ok(RepeatUpdate(d, v.value, |userDirs| - j))
      {
        var _ := LoadContentCategoriesDir(userDirs[j]);
        if v.None? {
          return Err(UnboundLocalError("v"));
        }
        d := Update(d, v.value);
        j := j + 1;
      }
    }
    return Ok(d);
  }

  // ---------------------------------------------------------------------------------
  // command -> content type, from the XDG menu
  // ---------------------------------------------------------------------------------

  /** One application entry of the XDG menu data, with the properties the loader reads. */
  datatype MenuEntry = MenuEntry(name: string, tryExec: Option<string>, exec: Option<string>,
                                 categories: Option<seq<string>>)
  /** One menu category with its "Entries" (none when the key is absent). */
  datatype MenuCategory = MenuCategory(name: string, entries: seq<MenuEntry>)

  /** A key of `command_to_type`: the loader stores bytes (`.encode()`), so a str key is a
      different key even with the same characters. */
  datatype CommandKey = TextKey(s: string) | BytesKey(b: string)

  /** A table key gives its type when it occurs in the lowercased category `lc`. */
  function KeyIn(lc: string): ((string, string)) -> Option<string> {
    (p: (string, string)) => if Find(lc, p.0) >= 0 then Some(p.1) else None
  }

  /** The value of the first key, in dict order, that occurs in the lowercased category. */
  function FuzzyMatch(catmap: Dict<string, string>, lc: string): Option<string> {
    FirstSome(catmap, KeyIn(lc))
  }

  /** Nothing exactly when no key occurs in `lc`; otherwise the value of the first that does. */
  lemma FuzzyMatchSpec(catmap: Dict<string, string>, lc: string)
    ensures FuzzyMatch(catmap, lc).None? <==> forall i :: 0 <= i < |catmap| ==> Find(lc, catmap[i].0) < 0
    ensures FuzzyMatch(catmap, lc).Some? ==> exists i :: (0 <= i < |catmap| && Find(lc, catmap[i].0) >= 0
      && FuzzyMatch(catmap, lc).value == catmap[i].1 && forall i' :: 0 <= i' < i ==> Find(lc, catmap[i'].0) < 0)
  {
    var f := KeyIn(lc);
    FirstSomeSpec(catmap, f);
    assert forall i :: 0 <= i < |catmap| ==> (f(catmap[i]).Some? <==> Find(lc, catmap[i].0) >= 0);
    if FuzzyMatch(catmap, lc).Some? {
      var i :| FirstSomeAt(catmap, f, i) && FuzzyMatch(catmap, lc) == f(catmap[i]);
    }
  }

  /** A key equal to the category is contained in it. */
  lemma ExactKeyContained(catmap: Dict<string, string>, lc: string)
    ensures Get(catmap, lc).Some? ==>
      exists i :: 0 <= i < |catmap| && Find(lc, catmap[i].0) >= 0 && catmap[i] == (lc, Get(catmap, lc).value)
  {
    if Get(catmap, lc).Some? {
      var i :| 0 <= i < |catmap| && catmap[i] == (lc, Get(catmap, lc).value);
      assert OccursAt(lc, catmap[i].0, 0);
    }
  }

  /** The content type a menu category resolves to: the exact lowercase key when it gives
      a non-empty type, else the value of the first key contained in the lowercased category
      (falling back to the exact lookup's result when no key is contained). */
  function CategoryType(catmap: Dict<string, string>, c: string): Option<string> {
    var lc := Lower(c);
    var exact := Get(catmap, lc);
    if Truthy(exact) then exact
    else match FuzzyMatch(catmap, lc)
      case Some(v) => Some(v)
      case None => exact
  }

  /** The exact key takes precedence; a category resolves to nothing exactly when no key
      occurs in its lowercased name; whatever it resolves to is the value of such a key. */
  lemma CategoryTypeSpec(catmap: Dict<string, string>, c: string)
    ensures Truthy(Get(catmap, Lower(c))) ==> CategoryType(catmap, c) == Get(catmap, Lower(c))
    ensures CategoryType(catmap, c).None? <==> forall i :: 0 <= i < |catmap| ==> Find(Lower(c), catmap[i].0) < 0
    ensures CategoryType(catmap, c).Some? ==>
      exists i :: 0 <= i < |catmap| && Find(Lower(c), catmap[i].0) >= 0 && CategoryType(catmap, c).value == catmap[i].1
  {
    ExactKeyContained(catmap, Lower(c));
    FuzzyMatchSpec(catmap, Lower(c));
  }

  /** The category lookup of `load_command_to_type`, with the fuzzy loop and its `break`. */
  method ResolveCategory(catmap: Dict<string, string>, c: string) returns (ctype: Option<string>)
    ensures ctype == CategoryType(catmap, c)
  {
    var lc := Lower(c);
    ctype := Get(catmap, lc);
    if !Truthy(ctype) {
      var i := 0;
      while i < |catmap|
        invariant 0 <= i <= |catmap|
        invariant FuzzyMatch(catmap, lc) == FirstSome(catmap[i..], KeyIn(lc))
      {
        assert catmap[i..][1..] == catmap[i + 1..];
        if Find(lc, catmap[i].0) >= 0 {
          ctype := Some(catmap[i].1);
          return;
        }
        i := i + 1;
      }
    }
  }

  /** A category gives its resolved type when that type is non-empty. */
  function Resolved(catmap: Dict<string, string>): string -> Option<string> {
    c => if Truthy(CategoryType(catmap, c)) then CategoryType(catmap, c) else None
  }

  /** The type of the first category that resolves to a non-empty type. */
  function FirstResolved(catmap: Dict<string, string>, cats: seq<string>): Option<string> {
    FirstSome(cats, Resolved(catmap))
  }

  /** Nothing exactly when no category resolves to a non-empty type; otherwise the
      non-empty type of the first category that does. */
  lemma FirstResolvedSpec(catmap: Dict<string, string>, cats: seq<string>)
    ensures FirstResolved(catmap, cats).None? <==> forall i :: 0 <= i < |cats| ==> !Truthy(CategoryType(catmap, cats[i]))
    ensures FirstResolved(catmap, cats).Some? ==> FirstResolved(catmap, cats).value != ""
    ensures FirstResolved(catmap, cats).Some? ==>
      exists i :: (0 <= i < |cats| && FirstResolved(catmap, cats) == CategoryType(catmap, cats[i])
      && forall i' :: 0 <= i' < i ==> !Truthy(CategoryType(catmap, cats[i'])))
  {
    var f := Resolved(catmap);
    FirstSomeSpec(cats, f);
    if FirstResolved(catmap, cats).Some? {
      var i :| FirstSomeAt(cats, f, i) && FirstResolved(catmap, cats) == f(cats[i]);
    }
  }

  /** `props.get("TryExec") or props.get("Exec")`. */
  function EntryCommand(e: MenuEntry): Option<string> {
    if Truthy(e.tryExec) then e.tryExec else e.exec
  }

  /** `os.path.basename(command.split(" ")[0]).encode()`. */
  function CommandName(command: string): string {
    Encode(Basename(BeforeFirst(command, ' ')))
  }

  /** The pair an entry stores in `command_to_type`, if any. */
  function EntryMapping(e: MenuEntry, catmap: Dict<string, string>): Option<(CommandKey, string)> {
    var command := EntryCommand(e);
    if !Truthy(command) || e.categories.None? || e.categories.value == [] then None
    else
      var cmd := CommandName(command.value);
      if cmd == [] then None
      else match FirstResolved(catmap, e.categories.value)
        case None => None
        case Some(t) => Some((BytesKey(cmd), t))
  }

  /** An entry stores nothing exactly when it has no command, no categories, a command
      whose name is empty, or no category resolving to a non-empty type; otherwise it stores
      that type under the bytes of its command's base name. */
  lemma EntryMappingSpec(e: MenuEntry, catmap: Dict<string, string>)
    ensures EntryMapping(e, catmap).None? <==> (!Truthy(EntryCommand(e)) || e.categories.None?
      || CommandName(EntryCommand(e).value) == [] || FirstResolved(catmap, e.categories.value).None?)
    ensures EntryMapping(e, catmap).Some? ==> (Truthy(EntryCommand(e)) && e.categories.Some?
      && EntryMapping(e, catmap).value.0 == BytesKey(CommandName(EntryCommand(e).value))
      && EntryMapping(e, catmap).value.0.b != [] && EntryMapping(e, catmap).value.1 != ""
      && Some(EntryMapping(e, catmap).value.1) == FirstResolved(catmap, e.categories.value))
  {
    if e.categories.Some? {
      FirstResolvedSpec(catmap, e.categories.value);
    }
  }

  /** The category loop of one entry, with its `break` once a type has been stored. */
  method EntryCommandType(e: MenuEntry, catmap: Dict<string, string>) returns (m: Option<(CommandKey, string)>)
    ensures m == EntryMapping(e, catmap)
  {
    m := None;
    var command := if Truthy(e.tryExec) then e.tryExec else e.exec;
    if !Truthy(command) || e.categories.None? || e.categories.value == [] {
      return;
    }
    var cats := e.categories.value;
    ghost var name := CommandName(command.value);
    var i := 0;
    while i < |cats|
      invariant 0 <= i <= |cats|
      invariant name != [] ==> FirstResolved(catmap, cats) == FirstSome(cats[i..], Resolved(catmap))
    {
      assert cats[i..][1..] == cats[i + 1..];
      var ctype := ResolveCategory(catmap, cats[i]);
      if Truthy(ctype) {
        var cmd := Encode(Basename(BeforeFirst(command.value, ' ')));
        if cmd != [] {
          m := Some((BytesKey(cmd), ctype.value));
          return;
        }
      }
      i := i + 1;
    }
  }

  /** All entries of the menu, category by category. */
  function AllEntries(menu: seq<MenuCategory>): seq<MenuEntry> {
    if menu == [] then [] else AllEntries(menu[..|menu| - 1]) + menu[|menu| - 1].entries
  }

  /** The mapping each entry contributes, as a function of the entry. */
  function EntryMappingOf(catmap: Dict<string, string>): MenuEntry -> Option<(CommandKey, string)> {
    (e: MenuEntry) => EntryMapping(e, catmap)
  }

  /** `command_to_type` after the entries have been visited in order. */
  function StoreEntries(entries: seq<MenuEntry>, catmap: Dict<string, string>): Dict<CommandKey, string> {
    Collect(entries, EntryMappingOf(catmap))
  }

  /** The table `load_command_to_type` fills, empty unless both the menu and the
      category table are non-empty. */
  function CommandToTypeOf(menu: seq<MenuCategory>, catmap: Dict<string, string>): Dict<CommandKey, string> {
    if menu == [] || catmap == [] then [] else StoreEntries(AllEntries(menu), catmap)
  }

  /** A command is present exactly when some entry maps to it; it is the bytes of a
      non-empty base name, and its type is the non-empty one the LAST entry for it gives. */
  lemma StoreEntriesLastWins(entries: seq<MenuEntry>, catmap: Dict<string, string>, k: CommandKey)
    ensures Get(StoreEntries(entries, catmap), k).None? <==>
      forall i :: 0 <= i < |entries| ==> !Assigns(EntryMappingOf(catmap), entries[i], k)
    ensures Get(StoreEntries(entries, catmap), k).Some? ==>
      k.BytesKey? && k.b != [] && Get(StoreEntries(entries, catmap), k).value != ""
    ensures Get(StoreEntries(entries, catmap), k).Some? ==>
      exists i :: LastAssigns(entries, EntryMappingOf(catmap), k, i)
        && EntryMapping(entries[i], catmap).value.1 == Get(StoreEntries(entries, catmap), k).value
  {
    CollectLastWins(entries, EntryMappingOf(catmap), k);
    if Get(StoreEntries(entries, catmap), k).Some? {
      var i :| LastAssigns(entries, EntryMappingOf(catmap), k, i)
        && EntryMappingOf(catmap)(entries[i]).value.1 == Get(StoreEntries(entries, catmap), k).value;
      EntryMappingSpec(entries[i], catmap);
    }
  }

  /** A command name given as a str is never found: every stored key is bytes. */
  lemma TextCommandNeverFound(menu: seq<MenuCategory>, catmap: Dict<string, string>, name: string)
    ensures Get(CommandToTypeOf(menu, catmap), TextKey(name)).None?
  {
    if !(menu == [] || catmap == []) {
      StoreEntriesLastWins(AllEntries(menu), catmap, TextKey(name));
    }
  }

  lemma StoreEntriesStep(done: seq<MenuEntry>, entries: seq<MenuEntry>, j: nat, catmap: Dict<string, string>)
    requires j < |entries|
    ensures StoreEntries(done + entries[..j + 1], catmap)
         == Assign(StoreEntries(done + entries[..j], catmap), EntryMapping(entries[j], catmap))
  {
    assert done + entries[..j + 1] == (done + entries[..j]) + [entries[j]];
    CollectSnoc(done + entries[..j], entries[j], EntryMappingOf(catmap));
  }

  lemma AllEntriesStep(menu: seq<MenuCategory>, i: nat)
    requires i < |menu|
    ensures AllEntries(menu[..i + 1]) == AllEntries(menu[..i]) + menu[i].entries
  {
    assert menu[..i + 1][..i] == menu[..i];
  }

  /** The nested loops of `load_command_to_type` over menu categories and their entries. */
  method BuildCommandToType(menu: seq<MenuCategory>, catmap: Dict<string, string>) returns (ctt: Dict<CommandKey, string>)
    ensures ctt == CommandToTypeOf(menu, catmap)
  {
    ctt := [];
    if menu == [] || catmap == [] {
      return;
    }
    var i := 0;
    while i < |menu|
      invariant 0 <= i <= |menu|
      invariant ctt == StoreEntries(AllEntries(menu[..i]), catmap)
    {
      ctt := StoreCategoryEntries(ctt, AllEntries(menu[..i]), menu[i].entries, catmap);
      AllEntriesStep(menu, i);
      i := i + 1;
    }
    assert menu[..i] == menu;
  }

  /** One entry of the loop: the type its categories resolve to, if any, is stored under
      its command. */
  method StoreEntry(ctt0: Dict<CommandKey, string>, e: MenuEntry, catmap: Dict<string, string>)
    returns (ctt: Dict<CommandKey, string>)
    ensures ctt == Assign(ctt0, EntryMapping(e, catmap))
  {
    ctt := ctt0;
    var m := EntryCommandType(e, catmap);
    if m.Some? {
      ctt := Put(ctt, m.value.0, m.value.1);
    }
  }

  /** The entry loop of one menu category, continuing the table built from `done`. */
  method StoreCategoryEntries(ctt0: Dict<CommandKey, string>, ghost done: seq<MenuEntry>, entries: seq<MenuEntry>,
                              catmap: Dict<string, string>) returns (ctt: Dict<CommandKey, string>)
    requires ctt0 == StoreEntries(done, catmap)
    ensures ctt == StoreEntries(done + entries, catmap)
  {
    ctt := ctt0;
    assert done + entries[..0] == done;
    var j := 0;
    while j < |entries|
      invariant 0 <= j <= |entries|
      invariant ctt == StoreEntries(done + entries[..j], catmap)
    {
      ctt := StoreEntry(ctt, entries[j], catmap);
      StoreEntriesStep(done, entries, j, catmap);
      j := j + 1;
    }
    assert entries[..j] == entries;
  }

  // ---------------------------------------------------------------------------------
  // the module-level tables and the guessing entry points
  // ---------------------------------------------------------------------------------

  /** What the process supplies: the regex engine, the platform, the `content-type` and
      `content-categories` directories of the system and user configuration directories,
      the two environment variables and the XDG menu data. */
  datatype Environment = Environment(
    re: RegexEngine,
    posix: bool, osx: bool, uid: int,
    systemTypeDirs: seq<ConfDir>, userTypeDirs: seq<ConfDir>,
    contentTypeDefsVar: string,      // XPRA_CONTENT_TYPE_DEFS
    defaultContentType: string,      // XPRA_DEFAULT_CONTENT_TYPE
    systemCategoryDirs: seq<ConfDir>, userCategoryDirs: seq<ConfDir>,
    menu: seq<MenuCategory>)

  /** `not POSIX or getuid() > 0`: user configuration directories are read. */
  predicate LoadsUserDirs(env: Environment) {
    !env.posix || env.uid > 0
  }

  /** The lines of the directories' files, files and directories in order. */
  function DirLines(dirs: seq<ConfDir>): seq<string> {
    if dirs == [] then [] else DirLines(dirs[..|dirs| - 1]) + FileLines(dirs[|dirs| - 1])
  }

  function FileLines(files: ConfDir): seq<string> {
    if files == [] then [] else FileLines(files[..|files| - 1]) + files[|files| - 1]
  }

  /** The table `load_content_type_defs` builds: system lines, then user lines, then the
      comma-separated entries of the environment variable. */
  function LoadedDefs(env: Environment): Defs {
    var system := ApplyEntries([], DirLines(env.systemTypeDirs), env.re);
    var user := if LoadsUserDirs(env) then ApplyEntries(system, DirLines(env.userTypeDirs), env.re) else system;
    ApplyEntries(user, SplitAll(env.contentTypeDefsVar, ','), env.re)
  }

  lemma FileLinesStep(files: ConfDir, j: nat)
    requires j < |files|
    ensures FileLines(files[..j + 1]) == FileLines(files[..j]) + files[j]
  {
    assert files[..j + 1][..j] == files[..j];
  }

  lemma DirLinesStep(dirs: seq<ConfDir>, i: nat)
    requires i < |dirs|
    ensures DirLines(dirs[..i + 1]) == DirLines(dirs[..i]) + FileLines(dirs[i])
  {
    assert dirs[..i + 1][..i] == dirs[..i];
  }

  lemma {:induction false} ApplyEntriesConcat(defs: Defs, a: seq<string>, b: seq<string>, re: RegexEngine)
    ensures ApplyEntries(defs, a + b, re) == ApplyEntries(ApplyEntries(defs, a, re), b, re)
    decreases |b|
  {
    if b == [] {
      assert a + b == a;
    } else {
      assert (a + b)[..|a + b| - 1] == a + b[..|b| - 1];
      assert (a + b)[|a + b| - 1] == b[|b| - 1];
      ApplyEntriesConcat(defs, a, b[..|b| - 1], re);
    }
  }

  /** `os.path.basename(command)` as a lookup key: a str gives a str key, bytes a bytes
      key; any other value makes `basename` raise. */
  function CommandLookupKey(v: Scalar): Option<CommandKey> {
    match v
    case Str(s) => Some(TextKey(Basename(s)))
    case Bytes(b) => Some(BytesKey(Basename(b)))
    case Other(_, _) => None
  }

  /** Truthiness of the command property. */
  predicate CommandTruthy(window: Window) {
    "command" in window &&
    match window["command"]
    case One(Str(s)) => s != ""
    case One(Bytes(b)) => b != ""
    case One(Other(_, truthy)) => truthy
    case Items(elems) => elems != []
  }

  /** `os.path.basename` accepts the command property whenever it is passed on: a truthy
      property is then a single str or bytes value. A truthy list or tuple, or a truthy
      value of any other type, makes it raise. */
  predicate CommandPropertyUsable(window: Window) {
    CommandTruthy(window) ==> window["command"].One? && CommandLookupKey(window["command"].v).Some?
  }

  /** `guess_content_type_from_command` on a loaded table: outside POSIX-but-not-macOS, or
      for a falsy command, there is no type; otherwise it raises exactly when `basename`
      refuses the value, and else finds a type exactly when the table holds the command's
      basename, and that type is the one stored beside it. */
  function CommandMatch(ctt: Dict<CommandKey, string>, window: Window, env: Environment): (r: Result<Option<string>, PyError>)
    ensures !(env.posix && !env.osx && CommandTruthy(window)) ==> r == Ok(None)
    ensures r.Err? <==> env.posix && !env.osx && !CommandPropertyUsable(window)
    ensures env.posix && !env.osx && CommandTruthy(window) && CommandPropertyUsable(window) ==>
      var k := CommandLookupKey(window["command"].v).value;
      r.Ok? && (r.value.None? <==> k !in Keys(ctt))
      && (r.value.Some? ==> exists i :: 0 <= i < |ctt| && ctt[i] == (k, r.value.value))
  {
    if env.posix && !env.osx && CommandTruthy(window) then
      match window["command"]
      case One(v) =>
        (match CommandLookupKey(v)
         case Some(k) => Ok(Get(ctt, k))
         case None => Err(TypeError("command")))
      case Items(_) => Err(TypeError("command"))
    else Ok(None)
  }

  /** What `guess_content_type_from_command` returns while the command table is `loaded`
      (`None` before its first load, which happens only for a truthy command on POSIX
      other than macOS): a first load that raises makes the call raise, whatever the
      command property holds; otherwise the lookup runs on the table as loaded. */
  function CommandGuess(loaded: Option<Dict<CommandKey, string>>, window: Window, env: Environment)
    : (r: Result<Option<string>, PyError>)
    ensures !(env.posix && !env.osx && CommandTruthy(window)) ==> r == Ok(None)
    ensures r.Err? <==>
      (env.posix && !env.osx && CommandTruthy(window) &&
       (!CommandPropertyUsable(window) ||
        (loaded.None? && CategoriesToTypeOf(env.systemCategoryDirs, env.userCategoryDirs, LoadsUserDirs(env)).Err?)))
    ensures r.Ok? && r.value.Some? ==> CommandTruthy(window) && CommandPropertyUsable(window)
  {
    if !(env.posix && !env.osx && CommandTruthy(window)) then Ok(None)
    else match loaded
      case Some(ctt) => CommandMatch(ctt, window, env)
      case None =>
        match CategoriesToTypeOf(env.systemCategoryDirs, env.userCategoryDirs, LoadsUserDirs(env))
        case Err(e) => Err(e)
        case Ok(catmap) => CommandMatch(CommandToTypeOf(env.menu, catmap), window, env)
  }

  /** With the table as loaded from the menu, a str command property never finds a type. */
  lemma TextCommandPropertyNeverMatches(menu: seq<MenuCategory>, catmap: Dict<string, string>, window: Window, env: Environment)
    requires "command" in window && window["command"].One? && window["command"].v.Str?
    ensures CommandMatch(CommandToTypeOf(menu, catmap), window, env) == Ok(None)
  {
    TextCommandNeverFound(menu, catmap, Basename(window["command"].v.s));
    assert CommandLookupKey(window["command"].v) == Some(TextKey(Basename(window["command"].v.s)));
  }

  /** `a or b or DEFAULT_CONTENT_TYPE`: falsy results fall through. */
  function FirstTruthy(fromDefs: Option<string>, fromCommand: Option<string>, default: string): (r: string)
    ensures Truthy(fromDefs) ==> r == fromDefs.value
    ensures !Truthy(fromDefs) && Truthy(fromCommand) ==> r == fromCommand.value
    ensures !Truthy(fromDefs) && !Truthy(fromCommand) ==> r == default
  {
    if Truthy(fromDefs) then fromDefs.value
    else if Truthy(fromCommand) then fromCommand.value
    else default
  }

  /** The module globals `content_type_defs` and `command_to_type`, each `None` until first
      loaded and then kept for the life of the process. */
  class ContentTables {
    var contentTypeDefs: Option<Defs>
    var commandToType: Option<Dict<CommandKey, string>>

    ghost predicate Valid()
      reads this
    {
      contentTypeDefs.Some? ==> WellFormedDefs(contentTypeDefs.value)
    }

    constructor ()
      ensures Valid()
      ensures contentTypeDefs == None && commandToType == None
    {
      contentTypeDefs := None;
      commandToType := None;
    }

    /** `process_content_type_entry`: the result says whether the entry was acceptable; the
        table gains the entry's rule exactly when it is a definition whose regex compiles. */
    method ProcessContentTypeEntry(entry: string, re: RegexEngine) returns (ok: bool)
      requires Valid() && contentTypeDefs.Some?
      modifies this`contentTypeDefs
      ensures Valid() && contentTypeDefs.Some?
      ensures ok == EntryAccepted(entry, re)
      ensures contentTypeDefs == Some(ApplyEntry(old(contentTypeDefs.value), entry, re))
      ensures !ok ==> contentTypeDefs == old(contentTypeDefs)
    {
      var line := EntryLine(entry);
      if CommentOrBlank(line) {
        assert ParseEntry(entry) == Ignored;
        return true;
      }
      var parts := SplitLast(line, '=');
      if parts.None? {
        assert ParseEntry(entry) == MissingEquals;
        return false;
      }
      var (lhs, rhs) := parts.value;
      var fields := SplitFirst(lhs, ':');
      if fields.None? {
        assert ParseEntry(entry) == MissingColon;
        return false;
      }
      var contentType := Strip(BeforeFirst(rhs, ':'), IsSpace);
      var (prop, regex) := fields.value;
      assert ParseEntry(entry) == Definition(prop, regex, contentType);
      if !re.compiles(regex) {
        return false;
      }
      assert EntryAccepted(entry, re);
      assert ApplyEntry(contentTypeDefs.value, entry, re) == AddDefinition(contentTypeDefs.value, prop, regex, contentType);
      AddDefinitionWellFormed(contentTypeDefs.value, prop, regex, contentType);
      contentTypeDefs := Some(AddDefinition(contentTypeDefs.value, prop, regex, contentType));
      return true;
    }

    /** Processes entries in order, ignoring each result (the source only logs it). */
    method ProcessEntries(entries: seq<string>, re: RegexEngine)
      requires Valid() && contentTypeDefs.Some?
      modifies this`contentTypeDefs
      ensures Valid() && contentTypeDefs.Some?
      ensures contentTypeDefs == Some(ApplyEntries(old(contentTypeDefs.value), entries, re))
    {
      var i := 0;
      while i < |entries|
        invariant 0 <= i <= |entries|
        invariant Valid() && contentTypeDefs.Some?
        invariant contentTypeDefs == Some(ApplyEntries(old(contentTypeDefs.value), entries[..i], re))
      {
        assert entries[..i + 1][..i] == entries[..i];
        var _ := ProcessContentTypeEntry(entries[i], re);
        i := i + 1;
      }
      assert entries[..i] == entries;
    }

    /** `load_content_type_dir`: the lines of every file of one directory, in order. */
    method LoadContentTypeDir(files: ConfDir, re: RegexEngine)
      requires Valid() && contentTypeDefs.Some?
      modifies this`contentTypeDefs
      ensures Valid() && contentTypeDefs.Some?
      ensures contentTypeDefs == Some(ApplyEntries(old(contentTypeDefs.value), FileLines(files), re))
    {
      var j := 0;
      while j < |files|
        invariant 0 <= j <= |files|
        invariant Valid() && contentTypeDefs.Some?
        invariant contentTypeDefs == Some(ApplyEntries(old(contentTypeDefs.value), FileLines(files[..j]), re))
      {
        ProcessEntries(files[j], re);
        ApplyEntriesConcat(old(contentTypeDefs.value), FileLines(files[..j]), files[j], re);
        FileLinesStep(files, j);
        j := j + 1;
      }
      assert files[..j] == files;
    }

    /** The loop of `load_content_type_defs` over a list of directories. */
    method LoadContentTypeDirs(dirs: seq<ConfDir>, re: RegexEngine)
      requires Valid() && contentTypeDefs.Some?
      modifies this`contentTypeDefs
      ensures Valid() && contentTypeDefs.Some?
      ensures contentTypeDefs == Some(ApplyEntries(old(contentTypeDefs.value), DirLines(dirs), re))
    {
      var i := 0;
      while i < |dirs|
        invariant 0 <= i <= |dirs|
        invariant Valid() && contentTypeDefs.Some?
        invariant contentTypeDefs == Some(ApplyEntries(old(contentTypeDefs.value), DirLines(dirs[..i]), re))
      {
        LoadContentTypeDir(dirs[i], re);
        ApplyEntriesConcat(old(contentTypeDefs.value), DirLines(dirs[..i]), FileLines(dirs[i]), re);
        DirLinesStep(dirs, i);
        i := i + 1;
      }
      assert dirs[..i] == dirs;
    }

    /** `load_content_type_defs`: builds the table on the first call only. */
    method LoadContentTypeDefs(env: Environment) returns (defs: Defs)
      requires Valid()
      modifies this`contentTypeDefs
      ensures Valid()
      ensures contentTypeDefs == Some(defs)
      ensures old(contentTypeDefs).Some? ==> defs == old(contentTypeDefs.value)
      ensures old(contentTypeDefs).None? ==> defs == LoadedDefs(env)
    {
      if contentTypeDefs.None? {
        contentTypeDefs := Some([]);
        LoadContentTypeDirs(env.systemTypeDirs, env.re);
        if LoadsUserDirs(env) {
          LoadContentTypeDirs(env.userTypeDirs, env.re);
        }
        ProcessEntries(SplitAll(env.contentTypeDefsVar, ','), env.re);
      }
      defs := contentTypeDefs.value;
    }

    /** `get_content_type_properties`: the properties some accepted rule names. */
    method GetContentTypeProperties(env: Environment) returns (props: seq<string>)
      requires Valid()
      modifies this`contentTypeDefs
      ensures Valid() && contentTypeDefs.Some?
      ensures old(contentTypeDefs).Some? ==> contentTypeDefs == old(contentTypeDefs)
      ensures old(contentTypeDefs).None? ==> contentTypeDefs == Some(LoadedDefs(env))
      ensures props == Keys(contentTypeDefs.value)
    {
      var defs := LoadContentTypeDefs(env);
      props := Keys(defs);
    }

    /** `load_command_to_type`: the first call sets the table to `{}`, then raises if loading
        the categories raises (the table stays `{}`), else fills it from the menu. */
    method LoadCommandToType(env: Environment) returns (r: Result<Dict<CommandKey, string>, PyError>)
      modifies this`commandToType
      ensures commandToType.Some?
      ensures old(commandToType).Some? ==> r == Ok(old(commandToType.value)) && commandToType == old(commandToType)
      ensures old(commandToType).None? ==>
        match CategoriesToTypeOf(env.systemCategoryDirs, env.userCategoryDirs, LoadsUserDirs(env))
        case Err(e) => r == Err(e) && commandToType == Some([])
        case Ok(catmap) => r == Ok(CommandToTypeOf(env.menu, catmap)) && commandToType == Some(r.value)
    {
      if commandToType.Some? {
        return Ok(commandToType.value);
      }
      commandToType := Some([]);
      var cats := LoadCategoriesToType(env.systemCategoryDirs, env.userCategoryDirs, LoadsUserDirs(env));
      if cats.Err? {
        return Err(cats.error);
      }
      var ctt := BuildCommandToType(env.menu, cats.value);
      commandToType := Some(ctt);
      return Ok(ctt);
    }

    /** `guess_content_type_from_defs`. */
    method GuessContentTypeFromDefs(window: Window, env: Environment) returns (r: Option<string>)
      requires Valid()
      modifies this`contentTypeDefs
      ensures Valid() && contentTypeDefs.Some?
      ensures old(contentTypeDefs).Some? ==> contentTypeDefs == old(contentTypeDefs)
      ensures old(contentTypeDefs).None? ==> contentTypeDefs == Some(LoadedDefs(env))
      ensures r == FirstMatch(contentTypeDefs.value, window, env.re)
    {
      var defs := LoadContentTypeDefs(env);
      r := FindContentType(defs, window, env.re);
    }

    /** `guess_content_type_from_command`: only on POSIX systems other than macOS and only
        for a truthy command property is the table loaded and the base name looked up. */
    method GuessContentTypeFromCommand(window: Window, env: Environment) returns (r: Result<Option<string>, PyError>)
      modifies this`commandToType
      ensures !(env.posix && !env.osx && CommandTruthy(window)) ==> r == Ok(None) && commandToType == old(commandToType)
      ensures env.posix && !env.osx && CommandTruthy(window) ==> commandToType.Some?
      ensures (r.Ok? || r.error.TypeError?) && commandToType.Some? ==> r == CommandMatch(commandToType.value, window, env)
      ensures old(commandToType).Some? ==>
        commandToType == old(commandToType) && r == CommandMatch(commandToType.value, window, env)
      ensures old(commandToType).None? && env.posix && !env.osx && CommandTruthy(window) ==>
        match CategoriesToTypeOf(env.systemCategoryDirs, env.userCategoryDirs, LoadsUserDirs(env))
        case Err(e) => r == Err(e) && commandToType == Some([])
        case Ok(catmap) =>
          commandToType == Some(CommandToTypeOf(env.menu, catmap)) && r == CommandMatch(commandToType.value, window, env)
      ensures r == CommandGuess(old(commandToType), window, env)
    {
      if !(env.posix && !env.osx) || !CommandTruthy(window) {
        return Ok(None);
      }
      var ctt :- LoadCommandToType(env);
      match window["command"]
      case One(v) =>
        match CommandLookupKey(v) {
          case Some(k) =>
            return Ok(Get(ctt, k));
          case None =>
            return Err(TypeError("command"));
        }
      case Items(_) =>
        return Err(TypeError("command"));
    }

    /** `guess_content_type`: the rule tables first, then the command, then the default;
        the command table is not touched when the rules already give a type. */
    method GuessContentType(window: Window, env: Environment) returns (r: Result<string, PyError>)
      requires Valid()
      modifies this`contentTypeDefs, this`commandToType
      ensures Valid() && contentTypeDefs.Some?
      ensures old(contentTypeDefs).None? ==> contentTypeDefs == Some(LoadedDefs(env))
      ensures old(contentTypeDefs).Some? ==> contentTypeDefs == old(contentTypeDefs)
      ensures Truthy(FirstMatch(contentTypeDefs.value, window, env.re)) ==>
        r == Ok(FirstMatch(contentTypeDefs.value, window, env.re).value) && commandToType == old(commandToType)
      ensures !Truthy(FirstMatch(contentTypeDefs.value, window, env.re)) && (r.Ok? || r.error.TypeError?) && commandToType.Some? ==>
        match CommandMatch(commandToType.value, window, env)
        case Err(e) => r == Err(e)
        case Ok(fromCommand) =>
          r == Ok(FirstTruthy(FirstMatch(contentTypeDefs.value, window, env.re), fromCommand, env.defaultContentType))
      ensures !(env.posix && !env.osx && CommandTruthy(window)) ==>
        r == Ok(FirstTruthy(FirstMatch(contentTypeDefs.value, window, env.re), None, env.defaultContentType))
      ensures old(commandToType).Some? && CommandPropertyUsable(window) ==> r.Ok?
      ensures !Truthy(FirstMatch(contentTypeDefs.value, window, env.re)) ==>
        match CommandGuess(old(commandToType), window, env)
        case Err(e) => r == Err(e)
        case Ok(fromCommand) =>
          r == Ok(FirstTruthy(FirstMatch(contentTypeDefs.value, window, env.re), fromCommand, env.defaultContentType))
      ensures !(env.posix && !env.osx && CommandTruthy(window)) ==> commandToType == old(commandToType)
      ensures old(commandToType).Some? ==> commandToType == old(commandToType)
      ensures (!Truthy(FirstMatch(contentTypeDefs.value, window, env.re)) && old(commandToType).None?
        && env.posix && !env.osx && CommandTruthy(window)) ==>
        match CategoriesToTypeOf(env.systemCategoryDirs, env.userCategoryDirs, LoadsUserDirs(env))
        case Err(_) => commandToType == Some([])
        case Ok(catmap) => commandToType == Some(CommandToTypeOf(env.menu, catmap))
    {
      var fromDefs := GuessContentTypeFromDefs(window, env);
      if Truthy(fromDefs) {
        return Ok(fromDefs.value);
      }
      var fromCommand :- GuessContentTypeFromCommand(window, env);
      return Ok(FirstTruthy(fromDefs, fromCommand, env.defaultContentType));
    }
  }
}
