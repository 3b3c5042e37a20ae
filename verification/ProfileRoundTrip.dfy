/** When write_profile followed by read_profile returns what was written: exactly when the token's
    first occurrence is its own header, because reading searches for the bare token and writing for
    the token with its bracket. */
module ProfileRoundTrip {
  import opened Common
  import opened Profiles

  // ---------------------------------------------------------------- words inside a text

  lemma {:induction false} Pieces(a: string, b: string, c: string, k: nat)
    requires k <= |b|
    ensures (a + b + c)[|a|..|a| + |b|] == b
    ensures (a + b + c)[..|a| + k] == a + b[..k]
  {
  }

  /** strchr passes over a word without the character. */
  lemma {:induction false} FindCharPast(s: string, before: string, word: string, rest: string, c: char)
    requires s == before + word + rest && c !in word && (rest != "" ==> rest[0] == c)
    ensures FindChar(s, c, |before|) == |before| + |word|
  {
    forall j | |before| <= j < |before| + |word| ensures s[j] != c { assert s[j] == word[j - |before|]; }
    if rest != "" { assert s[|before| + |word|] == rest[0]; }
    FindCharIs(s, c, |before|, |before| + |word|);
  }

  lemma {:induction false} MatchChar(s: string, t: string, i: nat, k: nat)
    requires Matches(s, t, i) && i <= k < i + |t|
    ensures s[k] == t[k - i]
  {
    assert s[k] == s[i..i + |t|][k - i];
  }

  /** A match cannot reach over a character that it does not contain. */
  lemma {:induction false} NoMatchOver(s: string, t: string, i: nat, k: nat)
    requires i <= k < i + |t| && k < |s| && s[k] !in t
    ensures !Matches(s, t, i)
  {
    if Matches(s, t, i) { MatchChar(s, t, i, k); }
  }

  /** No match of the old text means no match that begins in it, when a foreign character follows. */
  lemma {:induction false} NoMatchBegins(s: string, more: string, t: string, from: nat, j: nat, k: nat)
    requires Find(s, t, from) == None && from <= j <= k < |s + more| && |s| - 1 <= k <= |s| && (s + more)[k] !in t
    requires t != ""
    ensures !Matches(s + more, t, j)
  {
    if j + |t| <= |s| {
      FindIsFirst(s, t, from);
      assert (s + more)[..|s|] == s == s[..|s|];
      MatchInPrefix(s, t, s + more, j, |s|);
    } else {
      NoMatchOver(s + more, t, j, k);
    }
  }

  lemma {:induction false} NotFound(s: string, t: string, i: nat)
    requires Find(s, t, 0) == None
    ensures !Matches(s, t, i)
  {
    FindIsFirst(s, t, 0);
  }

  /** Changing the text behind the first match does not move it. */
  lemma {:induction false} FindKept(before: string, former: string, word: string, after: string, t: string)
    requires |t| <= |former| && |t| <= |word| && former[..|t|] == word[..|t|]
    requires Find(before + former + after, t, 0) == Some(|before|)
    ensures Find(before + word + after, t, 0) == Some(|before|)
  {
    Pieces(before, former, after, |t|);
    Pieces(before, word, after, |t|);
    FindInPrefix(before + former + after, t, before + word + after, 0, |before|, |before| + |t|);
  }

  // ---------------------------------------------------------------- searching a parameter

  /** The parameter search only depends on the text up to the equals sign it stops at. */
  lemma {:induction false} FindParameterInPrefix(s: string, u: string, parameter: string, from: nat, p: nat, m: nat)
    requires parameter != "" && m <= |s| && m <= |u| && s[..m] == u[..m]
    requires FindParameter(s, parameter, from) == Some(p) && p + |parameter| < m
    ensures FindParameter(u, parameter, from) == Some(p)
    decreases |s| - from
  {
    SearchStep(s, parameter, from);
    var q := Find(s, parameter, from).value;
    FindInPrefix(s, parameter, u, from, q, m);
    SameChar(s, u, m, q + |parameter|);
    if s[q + |parameter|] == '=' {
      SearchStops(u, parameter, from, q);
    } else {
      FindParameterInPrefix(s, u, parameter, q + |parameter|, p, m);
      SearchSkips(u, parameter, from, q);
    }
  }

  lemma {:induction false} SameChar(s: string, u: string, m: nat, i: nat)
    requires i < m <= |s| && m <= |u| && s[..m] == u[..m]
    ensures s[i] == u[i]
  {
    assert s[i] == s[..m][i] == u[..m][i] == u[i];
  }

  lemma {:induction false} SearchStops(s: string, parameter: string, from: nat, p: nat)
    requires parameter != "" && Find(s, parameter, from) == Some(p)
    requires p + |parameter| < |s| && s[p + |parameter|] == '='
    ensures FindParameter(s, parameter, from) == Some(p)
  {
    SearchStep(s, parameter, from);
  }

  lemma {:induction false} SearchSkips(s: string, parameter: string, from: nat, p: nat)
    requires parameter != "" && Find(s, parameter, from) == Some(p)
    requires p + |parameter| < |s| ==> s[p + |parameter|] != '='
    ensures FindParameter(s, parameter, from) == FindParameter(s, parameter, p + |parameter|)
  {
    SearchStep(s, parameter, from);
  }

  lemma {:induction false} NotAssigned(s: string, parameter: string, from: nat, q: nat)
    requires parameter != "" && Find(s, parameter, from) == Some(q) && FindParameter(s, parameter, from) == None
    ensures q + |parameter| < |s| ==> s[q + |parameter|] != '='
    ensures FindParameter(s, parameter, q + |parameter|) == None
  {
    SearchStep(s, parameter, from);
  }

  /** Behind a text without the parameter that ends in a newline, an appended line is found. */
  lemma {:induction false} FindParameterAppended(s: string, line: string, parameter: string, from: nat)
    requires parameter != "" && '\n' !in parameter && from <= |s|
    requires s != "" && s[|s| - 1] == '\n' && FindParameter(s, parameter, from) == None
    requires |parameter| < |line| && line[..|parameter|] == parameter && line[|parameter|] == '='
    ensures FindParameter(s + line, parameter, from) == Some(|s|)
    decreases |s| - from
  {
    match Find(s, parameter, from) {
      case None =>
        AppendedIsFirst(s, line, parameter, from);
        SearchStops(s + line, parameter, from, |s|);
      case Some(q) =>
        MatchStays(s, line, parameter, from, q);
        NotAssigned(s, parameter, from, q);
        FindParameterAppended(s, line, parameter, q + |parameter|);
        SearchSkips(s + line, parameter, from, q);
    }
  }

  lemma {:induction false} AppendedIsFirst(s: string, line: string, parameter: string, from: nat)
    requires parameter != "" && '\n' !in parameter && from <= |s|
    requires s != "" && s[|s| - 1] == '\n' && Find(s, parameter, from) == None
    requires |parameter| <= |line| && line[..|parameter|] == parameter
    ensures Find(s + line, parameter, from) == Some(|s|)
  {
    forall j | from <= j < |s| ensures !Matches(s + line, parameter, j) {
      NoMatchBegins(s, line, parameter, from, j, |s| - 1);
    }
    assert (s + line)[|s|..|s| + |parameter|] == line[..|parameter|];
    FindIs(s + line, parameter, from, |s|);
  }

  /** A match that is not an assignment stays one when text is appended behind a final newline. */
  lemma {:induction false} MatchStays(s: string, line: string, parameter: string, from: nat, q: nat)
    requires parameter != "" && '\n' !in parameter && s != "" && s[|s| - 1] == '\n'
    requires Find(s, parameter, from) == Some(q)
    ensures Find(s + line, parameter, from) == Some(q)
    ensures q + |parameter| < |s| && (s + line)[q + |parameter|] == s[q + |parameter|]
  {
    FindIsFirst(s, parameter, from);
    assert (s + line)[..|s|] == s == s[..|s|];
    FindInPrefix(s, parameter, s + line, from, q, |s|);
    if q + |parameter| == |s| { MatchChar(s, parameter, q, |s| - 1); }
  }

  /** What the parameter search finds is an assignment to the parameter. */
  lemma {:induction false} FoundWithEquals(section: string, parameter: string, p: nat)
    requires parameter != "" && FindParameter(section, parameter, 0) == Some(p)
    ensures p + |parameter| < |section| && section[p..p + |parameter| + 1] == parameter + "="
  {
    FindParameterMatches(section, parameter, 0);
    assert section[p..p + |parameter| + 1] == section[p..p + |parameter|] + [section[p + |parameter|]];
  }

  lemma {:induction false} NoParameterIn(s: string, parameter: string)
    requires parameter != "" && Find(s, parameter + "=", 0) == None
    ensures FindParameter(s, parameter, 0) == None
  {
    match FindParameter(s, parameter, 0) {
      case None =>
      case Some(p) =>
        FoundWithEquals(s, parameter, p);
        NotFound(s, parameter + "=", p);
    }
  }

  // ---------------------------------------------------------------- reading a known section

  /** A value is read up to the end of its line. */
  lemma {:induction false} ValueOfLine(section: string, before: string, parameter: string, value: string, rest: string)
    requires '=' !in parameter && '\n' !in parameter && '\n' !in value && rest != "" && rest[0] == '\n'
    requires section == before + Line(parameter, value) + rest
    ensures |before| + |parameter| < |section| && section[|before| + |parameter|] == '='
    ensures ValueAt(section, parameter, |before|) == value
  {
    assert section == before + parameter + ("=" + value + rest);
    FindCharPast(section, before, parameter, "=" + value + rest, '=');
    assert section == (before + parameter) + ("=" + value) + rest;
    FindCharPast(section, before + parameter, "=" + value, rest, '\n');
    assert section == (before + parameter + "=") + value + rest;
    Pieces(before + parameter + "=", value, rest, 0);
  }

  /** Only the section at the first occurrence of the token is looked at. */
  lemma {:induction false} LookupInSection(before: string, section: string, after: string, token: string,
                                           parameter: string)
    requires parameter != "" && '[' !in section && (after != "" ==> after[0] == '[')
    requires Find(before + section + after, token, 0) == Some(|before|)
    ensures Lookup(before + section + after, token, parameter) == ValueIn(section, parameter)
  {
    FindCharPast(before + section + after, before, section, after, '[');
    Pieces(before, section, after, 0);
  }

  lemma {:induction false} ValueInSection(section: string, head: string, parameter: string, value: string, rest: string)
    requires parameter != "" && '=' !in parameter && '\n' !in parameter && '\n' !in value
    requires FindParameter(section, parameter, 0) == Some(|head|)
    requires section == head + Line(parameter, value) + rest && rest != "" && rest[0] == '\n'
    ensures ValueIn(section, parameter) == Some(value)
  {
    ValueOfLine(section, head, parameter, value, rest);
  }

  /** Reading a text whose section and line are known. */
  lemma {:induction false} SectionReads(before: string, section: string, after: string, token: string,
                                        head: string, parameter: string, value: string, rest: string)
    requires parameter != "" && '=' !in parameter && '\n' !in parameter && '\n' !in value
    requires '[' !in section && (after != "" ==> after[0] == '[')
    requires Find(before + section + after, token, 0) == Some(|before|)
    requires FindParameter(section, parameter, 0) == Some(|head|)
    requires section == head + Line(parameter, value) + rest && rest != "" && rest[0] == '\n'
    ensures Lookup(before + section + after, token, parameter) == Some(value)
  {
    LookupInSection(before, section, after, token, parameter);
    ValueInSection(section, head, parameter, value, rest);
  }

  // ---------------------------------------------------------------- what may be written

  /** Names and values that cannot be mistaken for structure. */
  predicate Writable(token: string, parameter: string, value: string) {
    && token != "" && '[' !in token
    && parameter != "" && '=' !in parameter && '[' !in parameter && '\n' !in parameter
    && '[' !in value && '\n' !in value
    && Find(token + "]\n", parameter + "=", 0) == None
  }

  /** The section that will be edited ends in a newline. */
  predicate SectionEndsInNewline(text: string, token: string) {
    match Find(text, token + "]", 0)
    case None => true
    case Some(start) => var end := SectionEnd(text, start); end > start && text[end - 1] == '\n'
  }

  /** Nothing that looks like the token stands before its header; or there is neither. */
  predicate HeaderComesFirst(text: string, token: string) {
    Find(text, token, 0) == Find(text, token + "]", 0)
  }

  /** Any earlier occurrence of the token belongs to an earlier section. */
  predicate EarlierIsElsewhere(text: string, token: string) {
    match Find(text, token + "]", 0)
    case None => true
    case Some(header) =>
      match Find(text, token, 0)
      case None => true
      case Some(first) => first < header ==> SectionEnd(text, first) < header
  }

  // ---------------------------------------------------------------- writing into a section

  /** A section that starts with its header. */
  predicate IsSection(section: string, token: string) {
    token + "]" <= section && '[' !in section
  }

  /** The section of an existing header. */
  lemma {:induction false} HeaderInSection(text: string, token: string, start: nat, end: nat)
    requires Find(text, token + "]", 0) == Some(start) && '[' !in token && end == SectionEnd(text, start)
    ensures IsSection(text[start..end], token) && start + |token| < end
    ensures text == text[..start] + text[start..end] + text[end..]
  {
    var t := token + "]";
    FindIsFirst(text, t, 0);
    if end < start + |t| { NoMatchOver(text, t, start, end); }
    assert text[start..end][..|t|] == text[start..start + |t|];
  }

  lemma {:induction false} HeaderIsPrefix(section: string, token: string)
    requires token + "]" <= section
    ensures |token| < |section| && section[..|token|] == token
    ensures (token + "]\n")[..|token| + 1] == section[..|token| + 1]
  {
    assert section[..|token|] == section[..|token| + 1][..|token|];
  }

  /** A parameter found in a section lies behind its header. */
  lemma {:induction false} ParameterBehindHeader(section: string, head: string, assignment: string, p: nat)
    requires |head| > 0 && |head| - 1 <= |section| && section[..|head| - 1] == head[..|head| - 1]
    requires Find(head, assignment, 0) == None && Matches(section, assignment, p)
    ensures p + |assignment| >= |head|
  {
    if p + |assignment| < |head| {
      MatchInPrefix(section, assignment, head, p, |head| - 1);
      NotFound(head, assignment, p);
    }
  }

  /** The replaced section still starts with its header and finds the parameter at the same place. */
  lemma {:induction false} ReplacedSection(section: string, token: string, parameter: string, value: string, p: nat,
                                           rest: string)
    requires Writable(token, parameter, value) && IsSection(section, token) && '[' !in rest
    requires FindParameter(section, parameter, 0) == Some(p)
    ensures p <= |section|
    ensures var s := section[..p] + Line(parameter, value) + rest;
      FindParameter(s, parameter, 0) == Some(p) && '[' !in s && |token| <= |s| && s[..|token|] == token
  {
    FoundWithEquals(section, parameter, p);
    HeaderIsPrefix(section, token);
    ParameterBehindHeader(section, token + "]\n", parameter + "=", p);
    var s, m := section[..p] + Line(parameter, value) + rest, p + |parameter| + 1;
    SameUpToEquals(section, parameter, value, p, rest);
    FindParameterInPrefix(section, s, parameter, 0, p, m);
    PrefixOfPrefix(section, s, |token|, m);
    NoBracket(section[..p], parameter, value, rest);
  }

  lemma {:induction false} PrefixOfPrefix(s: string, u: string, k: nat, m: nat)
    requires k <= m <= |s| && m <= |u| && s[..m] == u[..m]
    ensures s[..k] == u[..k]
  {
    assert s[..m][..k] == u[..m][..k];
  }

  lemma {:induction false} NoBracket(before: string, parameter: string, value: string, rest: string)
    requires '[' !in before && '[' !in parameter && '[' !in value && '[' !in rest
    ensures '[' !in before + Line(parameter, value) + rest
  {
  }

  lemma {:induction false} SameUpToEquals(section: string, parameter: string, value: string, p: nat, rest: string)
    requires p + |parameter| < |section| && section[p..p + |parameter| + 1] == parameter + "="
    ensures var m := p + |parameter| + 1;
      var s := section[..p] + Line(parameter, value) + rest;
      m <= |s| && s[..m] == section[..m]
  {
    var m, head := p + |parameter| + 1, section[..p];
    var s := head + Line(parameter, value) + rest;
    assert s == (head + (parameter + "=")) + (value + rest);
    assert s[..m] == head + (parameter + "=") == head + section[p..m] == section[..m];
  }

  /** A replaced line reads back. */
  lemma {:induction false} ReplacedReadsBack(before: string, section: string, after: string, token: string,
                          parameter: string, value: string, p: nat, nl: nat)
    requires Writable(token, parameter, value) && IsSection(section, token) && (after != "" ==> after[0] == '[')
    requires Find(before + section + after, token, 0) == Some(|before|)
    requires FindParameter(section, parameter, 0) == Some(p) && p <= nl < |section| && section[nl] == '\n'
    ensures Lookup(before + (section[..p] + Line(parameter, value) + section[nl..]) + after, token, parameter)
      == Some(value)
  {
    var s := section[..p] + Line(parameter, value) + section[nl..];
    ReplacedSection(section, token, parameter, value, p, section[nl..]);
    HeaderIsPrefix(section, token);
    FindKept(before, section, s, after, token);
    SectionReads(before, s, after, token, section[..p], parameter, value, section[nl..]);
  }

  /** A line inserted at the end of the section reads back. */
  lemma {:induction false} InsertedReadsBack(before: string, section: string, after: string, token: string,
                          parameter: string, value: string)
    requires Writable(token, parameter, value) && IsSection(section, token) && (after != "" ==> after[0] == '[')
    requires Find(before + section + after, token, 0) == Some(|before|) && section[|section| - 1] == '\n'
    requires FindParameter(section, parameter, 0) == None
    ensures Lookup(before + (section + Line(parameter, value) + "\n") + after, token, parameter) == Some(value)
  {
    var s := section + Line(parameter, value) + "\n";
    LineIsFound(section, parameter, value);
    HeaderIsPrefix(section, token);
    assert s[..|token|] == section[..|token|];
    FindKept(before, section, s, after, token);
    NoBracket(section, parameter, value, "\n");
    SectionReads(before, s, after, token, section, parameter, value, "\n");
  }

  lemma {:induction false} LineIsFound(section: string, parameter: string, value: string)
    requires parameter != "" && '\n' !in parameter && section != "" && section[|section| - 1] == '\n'
    requires FindParameter(section, parameter, 0) == None
    ensures FindParameter(section + Line(parameter, value) + "\n", parameter, 0) == Some(|section|)
  {
    var line := Line(parameter, value) + "\n";
    assert line[..|parameter|] == parameter && line[|parameter|] == '=';
    FindParameterAppended(section, line, parameter, 0);
    assert section + line == section + Line(parameter, value) + "\n";
  }

  /** A new section reads back. */
  lemma {:induction false} NewSectionReadsBack(text: string, token: string, parameter: string, value: string)
    requires Writable(token, parameter, value) && Find(text, token, 0) == None
    ensures Lookup(text + NewSection(token, parameter, value), token, parameter) == Some(value)
  {
    var head := token + "]\n";
    var section := head + Line(parameter, value) + "\n";
    NewHeaderIsFirst(text, token, "]\n" + Line(parameter, value) + "\n");
    assert token + ("]\n" + Line(parameter, value) + "\n") == section;
    assert text + NewSection(token, parameter, value) == (text + "[") + section + "";
    NoParameterIn(head, parameter);
    LineIsFound(head, parameter, value);
    NoBracket(head, parameter, value, "\n");
    SectionReads(text + "[", section, "", token, head, parameter, value, "\n");
  }

  lemma {:induction false} NewHeaderIsFirst(text: string, token: string, rest: string)
    requires token != "" && '[' !in token && Find(text, token, 0) == None
    ensures Find((text + "[") + (token + rest) + "", token, 0) == Some(|text| + 1)
  {
    var u := text + ("[" + (token + rest));
    assert u == (text + "[") + (token + rest) + "";
    forall j | 0 <= j < |text| + 1 ensures !Matches(u, token, j) {
      NoMatchBegins(text, "[" + (token + rest), token, 0, j, |text|);
    }
    assert u[|text| + 1..|text| + 1 + |token|] == token;
    FindIs(u, token, 0, |text| + 1);
  }

  /** One section with the line for the parameter replaced or added. */
  function Edited(section: string, parameter: string, value: string): string
    requires parameter != ""
  {
    match FindParameter(section, parameter, 0)
    case None => section + Line(parameter, value) + "\n"
    case Some(p) => section[..p] + Line(parameter, value) + section[FindChar(section, '\n', p)..]
  }

  lemma {:induction false} ReplacedText(text: string, start: nat, end: nat, p: nat, nl: nat, line: string)
    requires start <= end <= |text| && p <= nl <= end - start
    ensures text[..start + p] + line + text[start + nl..]
      == text[..start] + (text[start..end][..p] + line + text[start..end][nl..]) + text[end..]
  {
    var head, tail := text[start..end][..p], text[start..end][nl..];
    assert text[..start + p] == text[..start] + head;
    assert text[start + nl..] == tail + text[end..];
    assert (text[..start] + head) + line + (tail + text[end..]) == text[..start] + (head + line + tail) + text[end..];
  }

  lemma {:induction false} InsertedText(text: string, start: nat, end: nat, line: string, newline: string)
    requires start <= end <= |text|
    ensures text[..end] + (line + newline) + text[end..]
      == text[..start] + (text[start..end] + line + newline) + text[end..]
  {
    assert text[..end] == text[..start] + text[start..end];
  }

  lemma {:induction false} UpdateReplaces(text: string, token: string, parameter: string, value: string,
                                          start: nat, end: nat, p: nat, nl: nat)
    requires parameter != "" && Find(text, token + "]", 0) == Some(start) && end == SectionEnd(text, start)
    requires FindParameter(text[start..end], parameter, 0) == Some(p) && nl == FindChar(text[start..end], '\n', p)
    ensures Update(text, token, parameter, value) == text[..start + p] + Line(parameter, value) + text[start + nl..]
  {
  }

  lemma {:induction false} UpdateInserts(text: string, token: string, parameter: string, value: string,
                                         start: nat, end: nat)
    requires parameter != "" && Find(text, token + "]", 0) == Some(start) && end == SectionEnd(text, start)
    requires FindParameter(text[start..end], parameter, 0) == None
    ensures Update(text, token, parameter, value) == text[..end] + (Line(parameter, value) + "\n") + text[end..]
  {
  }

  /** What writing does to an existing section, with the text around it kept. */
  lemma {:induction false} UpdateInSection(text: string, token: string, parameter: string, value: string,
                                           start: nat, end: nat)
    requires parameter != "" && Find(text, token + "]", 0) == Some(start) && end == SectionEnd(text, start)
    ensures Update(text, token, parameter, value)
      == text[..start] + Edited(text[start..end], parameter, value) + text[end..]
  {
    match FindParameter(text[start..end], parameter, 0) {
      case None =>
        UpdateInserts(text, token, parameter, value, start, end);
        InsertedText(text, start, end, Line(parameter, value), "\n");
      case Some(p) =>
        var nl := FindChar(text[start..end], '\n', p);
        UpdateReplaces(text, token, parameter, value, start, end, p, nl);
        ReplacedText(text, start, end, p, nl, Line(parameter, value));
    }
  }

  /** Reading after writing into an existing section whose header is the first occurrence. */
  lemma {:induction false} SectionReadsBack(text: string, token: string, parameter: string, value: string,
                                            start: nat, end: nat)
    requires Writable(token, parameter, value) && SectionEndsInNewline(text, token)
    requires Find(text, token, 0) == Some(start) == Find(text, token + "]", 0) && end == SectionEnd(text, start)
    ensures Lookup(text[..start] + Edited(text[start..end], parameter, value) + text[end..], token, parameter)
      == Some(value)
  {
    SectionParts(text, token, start, end);
    ThreeParts(text, start, end);
    PartsReadBack(text, text[..start], text[start..end], text[end..], token, parameter, value);
  }

  lemma {:induction false} PartsReadBack(text: string, before: string, section: string, after: string, token: string,
                                         parameter: string, value: string)
    requires Writable(token, parameter, value) && IsSection(section, token) && (after != "" ==> after[0] == '[')
    requires text == before + section + after && Find(text, token, 0) == Some(|before|)
    requires section[|section| - 1] == '\n'
    ensures Lookup(before + Edited(section, parameter, value) + after, token, parameter) == Some(value)
  {
    EditedReadsBack(before, section, after, token, parameter, value);
  }

  /** The text before, in and behind the section of an existing header. */
  lemma {:induction false} SectionParts(text: string, token: string, start: nat, end: nat)
    requires Find(text, token + "]", 0) == Some(start) && end == SectionEnd(text, start)
    requires '[' !in token && SectionEndsInNewline(text, token)
    ensures start < end <= |text| && text[end - 1] == '\n'
    ensures IsSection(text[start..end], token) && text[start..end][|text[start..end]| - 1] == '\n'
    ensures text[end..] != "" ==> text[end..][0] == '['
  {
    HeaderInSection(text, token, start, end);
    LastOfSection(text, start, end, '\n');
  }

  lemma {:induction false} ThreeParts(text: string, start: nat, end: nat)
    requires start <= end <= |text|
    ensures text == text[..start] + text[start..end] + text[end..] && |text[..start]| == start
  {
  }

  lemma {:induction false} LastOfSection(text: string, start: nat, end: nat, c: char)
    requires start < end <= |text| && text[end - 1] == c
    ensures |text[start..end]| > 0 && text[start..end][|text[start..end]| - 1] == c
    ensures end < |text| ==> text[end..][0] == text[end]
  {
  }

  lemma {:induction false} EditedReadsBack(before: string, section: string, after: string, token: string,
                                           parameter: string, value: string)
    requires Writable(token, parameter, value) && IsSection(section, token) && (after != "" ==> after[0] == '[')
    requires Find(before + section + after, token, 0) == Some(|before|) && section[|section| - 1] == '\n'
    ensures Lookup(before + Edited(section, parameter, value) + after, token, parameter) == Some(value)
  {
    match FindParameter(section, parameter, 0) {
      case None => InsertedReadsBack(before, section, after, token, parameter, value);
      case Some(p) =>
        var nl := FindChar(section, '\n', p);
        ReplacedReadsBack(before, section, after, token, parameter, value, p, nl);
    }
  }

  // ---------------------------------------------------------------- the misdirected case

  /** Text behind the section that is read does not matter. */
  lemma {:induction false} LookupIgnoresLaterText(a: string, more: string, token: string, parameter: string, start: nat)
    requires parameter != "" && Find(a, token, 0) == Some(start) && '[' !in a[start..]
    requires more != "" ==> more[0] == '['
    ensures Lookup(a + more, token, parameter) == Lookup(a, token, parameter)
  {
    assert (a + more)[..|a|] == a == a[..|a|];
    FindInPrefix(a, token, a + more, 0, start, |a|);
    assert a + more == a[..start] + a[start..] + more && a == a[..start] + a[start..] + "";
    LookupInSection(a[..start], a[start..], more, token, parameter);
    LookupInSection(a[..start], a[start..], "", token, parameter);
  }

  /** What is read is decided before the next opening bracket. */
  lemma {:induction false} LookupEndsAtBracket(text: string, token: string, parameter: string, start: nat, end: nat)
    requires parameter != "" && Find(text, token, 0) == Some(start) && '[' !in token && end == SectionEnd(text, start)
    ensures Lookup(text, token, parameter) == Lookup(text[..end], token, parameter)
    ensures Find(text[..end], token, 0) == Some(start) && '[' !in text[..end][start..]
  {
    FindIsFirst(text, token, 0);
    if end < start + |token| && end < |text| { NoMatchOver(text, token, start, end); }
    FindInPrefix(text, token, text[..end], 0, start, end);
    assert text[..end] + text[end..] == text;
    LookupIgnoresLaterText(text[..end], text[end..], token, parameter, start);
  }

  /** Writing changes nothing before the header, and adds a bracket when there is no header. */
  lemma {:induction false} UpdateKeepsPrefix(text: string, token: string, parameter: string, value: string, m: nat)
    requires parameter != "" && m <= |text|
    requires Find(text, token + "]", 0).Some? ==> m <= Find(text, token + "]", 0).value
    ensures text[..m] <= Update(text, token, parameter, value)
    ensures Find(text, token + "]", 0).None? ==> text + "[" <= Update(text, token, parameter, value)
  {
  }

  /** An occurrence of the header is an occurrence of the token. */
  lemma {:induction false} HeaderContainsToken(text: string, token: string, start: nat)
    requires Find(text, token + "]", 0) == Some(start)
    ensures Find(text, token, 0).Some? && Find(text, token, 0).value <= start
  {
    FindIsFirst(text, token + "]", 0);
    FindIsFirst(text, token, 0);
    assert text[start..start + |token + "]"|][..|token|] == token;
    assert Matches(text, token, start);
  }

  lemma {:induction false} UpToBracket(text: string, end: nat, u: string)
    requires end <= |text| && (end < |text| ==> text[end] == '[')
    requires (end < |text| && text[..end + 1] <= u) || text + "[" <= u
    ensures text[..end] + "[" <= u
  {
    if end < |text| {
      assert text[..end + 1] == text[..end] + "[";
      if text + "[" <= u { assert text[..end + 1] <= text + "["; }
    } else {
      assert text[..end] == text;
    }
  }

  /** The first occurrence of the token ends before a bracket that writing leaves in place. */
  lemma {:induction false} MisdirectedSection(text: string, token: string, parameter: string, value: string,
                                              start: nat, end: nat)
    requires parameter != "" && EarlierIsElsewhere(text, token) && !HeaderComesFirst(text, token)
    requires Find(text, token, 0) == Some(start) && end == SectionEnd(text, start)
    ensures text[..end] + "[" <= Update(text, token, parameter, value)
  {
    match Find(text, token + "]", 0) {
      case None =>
        UpdateKeepsPrefix(text, token, parameter, value, |text|);
      case Some(header) =>
        HeaderContainsToken(text, token, header);
        UpdateKeepsPrefix(text, token, parameter, value, end + 1);
    }
    UpToBracket(text, end, Update(text, token, parameter, value));
  }

  /** With an earlier occurrence of the token, writing has no effect on what reading returns. */
  lemma {:induction false} MisdirectedReadIsUnchanged(text: string, token: string, parameter: string, value: string)
    requires Writable(token, parameter, value) && EarlierIsElsewhere(text, token) && !HeaderComesFirst(text, token)
    ensures Lookup(Update(text, token, parameter, value), token, parameter) == Lookup(text, token, parameter)
  {
    var header := Find(text, token + "]", 0);
    if header.Some? { HeaderContainsToken(text, token, header.value); }
    var start := Find(text, token, 0).value;
    var end := SectionEnd(text, start);
    var u := Update(text, token, parameter, value);
    MisdirectedSection(text, token, parameter, value, start, end);
    LookupEndsAtBracket(text, token, parameter, start, end);
    SplitAfterPrefix(text[..end], u);
    LookupIgnoresLaterText(text[..end], u[end..], token, parameter, start);
  }

  lemma {:induction false} SplitAfterPrefix(a: string, u: string)
    requires a + "[" <= u
    ensures u == a + u[|a|..] && u[|a|..] != "" && u[|a|..][0] == '['
  {
    assert u[..|a| + 1] == a + "[";
    assert u[|a|] == u[..|a| + 1][|a|];
    assert u[..|a|] == u[..|a| + 1][..|a|];
  }

  // ---------------------------------------------------------------- the theorem

  /** Read after write: it returns the value exactly when the token's first occurrence is its own
      header, or the misdirected read happened to return that value already. */
  lemma {:induction false} ReadAfterWrite(text: string, token: string, parameter: string, value: string)
    requires Writable(token, parameter, value)
    requires SectionEndsInNewline(text, token) && EarlierIsElsewhere(text, token)
    ensures Lookup(Update(text, token, parameter, value), token, parameter) == Some(value)
      <==> HeaderComesFirst(text, token) || Lookup(text, token, parameter) == Some(value)
  {
    if HeaderComesFirst(text, token) {
      match Find(text, token, 0) {
        case None => NewSectionReadsBack(text, token, parameter, value);
        case Some(start) =>
          UpdateInSection(text, token, parameter, value, start, SectionEnd(text, start));
          SectionReadsBack(text, token, parameter, value, start, SectionEnd(text, start));
      }
    } else {
      MisdirectedReadIsUnchanged(text, token, parameter, value);
    }
  }

  // ---------------------------------------------------------------- an earlier token in the same section

  function Moved(r: Option<nat>, k: nat): Option<nat> {
    match r
    case None => None
    case Some(i) => Some(k + i)
  }

  lemma {:induction false} FindBehind(u: string, k: nat, s: string, t: string, from: nat)
    requires k <= |u| && u[k..] == s
    ensures Find(u, t, k + from) == Moved(Find(s, t, from), k)
    decreases |s| - from
  {
    if from + |t| > |s| {
    } else {
      assert u[k..|u|] == s;
      SliceOfSlice(u, k, |u|, from, from + |t|);
      assert Matches(u, t, k + from) <==> Matches(s, t, from);
      if !Matches(s, t, from) { FindBehind(u, k, s, t, from + 1); }
    }
  }

  lemma {:induction false} FindParameterBehind(u: string, k: nat, s: string, parameter: string, from: nat)
    requires k <= |u| && u[k..] == s && parameter != ""
    ensures FindParameter(u, parameter, k + from) == Moved(FindParameter(s, parameter, from), k)
    decreases |s| - from
  {
    FindBehind(u, k, s, parameter, from);
    var found := Find(s, parameter, from);
    if found.None? {
      EndBoth(u, k, s, parameter, from);
    } else {
      var next := found.value + |parameter|;
      FindParameterBehind(u, k, s, parameter, next);
      TurnBoth(u, k, s, parameter, from, found.value, next);
    }
  }

  lemma {:induction false} EndBoth(u: string, k: nat, s: string, parameter: string, from: nat)
    requires parameter != "" && Find(s, parameter, from) == None == Find(u, parameter, k + from)
    ensures FindParameter(u, parameter, k + from) == Moved(FindParameter(s, parameter, from), k)
  {
    SearchStep(s, parameter, from);
    SearchStep(u, parameter, k + from);
  }

  lemma {:induction false} TurnBoth(u: string, k: nat, s: string, parameter: string, from: nat, p: nat, next: nat)
    requires k <= |u| && u[k..] == s && parameter != "" && next == p + |parameter|
    requires Find(s, parameter, from) == Some(p) && Find(u, parameter, k + from) == Some(k + p)
    requires FindParameter(u, parameter, k + next) == Moved(FindParameter(s, parameter, next), k)
    ensures FindParameter(u, parameter, k + from) == Moved(FindParameter(s, parameter, from), k)
  {
    if next < |s| { CharBehind(u, k, s, next); }
    if next < |s| && s[next] == '=' {
      StopBoth(u, k, s, parameter, from, p, next);
    } else {
      SkipBoth(u, k, s, parameter, from, p, next);
    }
  }

  lemma {:induction false} StopBoth(u: string, k: nat, s: string, parameter: string, from: nat, p: nat, next: nat)
    requires parameter != "" && next == p + |parameter|
    requires Find(s, parameter, from) == Some(p) && Find(u, parameter, k + from) == Some(k + p)
    requires next < |s| && s[next] == '=' && k + next < |u| && u[k + next] == '='
    ensures FindParameter(u, parameter, k + from) == Moved(FindParameter(s, parameter, from), k)
  {
    SearchStops(s, parameter, from, p);
    SearchStops(u, parameter, k + from, k + p);
  }

  lemma {:induction false} SkipBoth(u: string, k: nat, s: string, parameter: string, from: nat, p: nat, next: nat)
    requires parameter != "" && next == p + |parameter|
    requires Find(s, parameter, from) == Some(p) && Find(u, parameter, k + from) == Some(k + p)
    requires (next < |s| ==> s[next] != '=') && (k + next < |u| ==> u[k + next] != '=')
    requires FindParameter(u, parameter, k + next) == Moved(FindParameter(s, parameter, next), k)
    ensures FindParameter(u, parameter, k + from) == Moved(FindParameter(s, parameter, from), k)
  {
    var r := FindParameter(s, parameter, next);
    SkipsTo(s, parameter, from, p, next, r);
    SkipsTo(u, parameter, k + from, k + p, k + next, Moved(r, k));
  }

  lemma {:induction false} SkipsTo(s: string, parameter: string, from: nat, p: nat, next: nat, r: Option<nat>)
    requires parameter != "" && Find(s, parameter, from) == Some(p) && next == p + |parameter|
    requires (next < |s| ==> s[next] != '=') && FindParameter(s, parameter, next) == r
    ensures FindParameter(s, parameter, from) == r
  {
    SearchSkips(s, parameter, from, p);
  }

  lemma {:induction false} CharBehind(u: string, k: nat, s: string, i: nat)
    requires k <= |u| && u[k..] == s && i < |s|
    ensures k + i < |u| && u[k + i] == s[i]
  {
  }

  /** A gap in which no match of the parameter begins does not change what is read. */
  lemma {:induction false} ValueBehind(u: string, k: nat, s: string, parameter: string)
    requires k <= |u| && u[k..] == s && parameter != "" && forall j :: 0 <= j < k ==> !Matches(u, parameter, j)
    ensures ValueIn(u, parameter) == ValueIn(s, parameter)
  {
    SkipGap(u, parameter, 0, k);
    FindParameterBehind(u, k, s, parameter, 0);
    ValueMoved(u, k, s, parameter);
  }

  lemma {:induction false} ValueMoved(u: string, k: nat, s: string, parameter: string)
    requires k <= |u| && u[k..] == s && parameter != ""
    requires FindParameter(u, parameter, 0) == Moved(FindParameter(s, parameter, 0), k)
    ensures ValueIn(u, parameter) == ValueIn(s, parameter)
  {
    match FindParameter(s, parameter, 0) {
      case None =>
      case Some(p) => ValueAtBehind(u, k, s, parameter, p);
    }
  }

  lemma {:induction false} ValueAtBehind(u: string, k: nat, s: string, parameter: string, p: nat)
    requires k <= |u| && u[k..] == s && p + |parameter| < |s| && s[p + |parameter|] == '='
    ensures k + p + |parameter| < |u| && u[k + p + |parameter|] == '='
    ensures ValueAt(u, parameter, k + p) == ValueAt(s, parameter, p)
  {
    FindCharBehind(u, k, s, '=', p);
    var eq := FindChar(s, '=', p);
    FindCharBehind(u, k, s, '\n', eq);
    assert u[k..|u|] == s;
    SliceOfSlice(u, k, |u|, eq + 1, FindChar(s, '\n', eq));
  }

  lemma {:induction false} FindCharBehind(u: string, k: nat, s: string, c: char, from: nat)
    requires k <= |u| && u[k..] == s && from <= |s|
    ensures FindChar(u, c, k + from) == k + FindChar(s, c, from)
  {
    var r := FindChar(s, c, from);
    forall j | k + from <= j < k + r ensures u[j] != c { assert u[j] == s[j - k]; }
    if r < |s| { assert u[k + r] == s[r]; }
    FindCharIs(u, c, k + from, k + r);
  }

  lemma {:induction false} SkipGap(s: string, t: string, from: nat, to: nat)
    requires t != "" && from <= to <= |s| && forall j :: from <= j < to ==> !Matches(s, t, j)
    ensures Find(s, t, from) == Find(s, t, to)
    ensures FindParameter(s, t, from) == FindParameter(s, t, to)
    decreases |s| - from
  {
    if from == to {
    } else {
      SkipGap(s, t, from + 1, to);
    }
  }

  lemma {:induction false} EditedSection(section: string, token: string, parameter: string, value: string)
    requires Writable(token, parameter, value) && IsSection(section, token) && section[|section| - 1] == '\n'
    ensures var s := Edited(section, parameter, value);
      '[' !in s && |token| <= |s| && s[..|token|] == token && ValueIn(s, parameter) == Some(value)
  {
    HeaderIsPrefix(section, token);
    match FindParameter(section, parameter, 0) {
      case None =>
        var s := section + Line(parameter, value) + "\n";
        LineIsFound(section, parameter, value);
        ValueInSection(s, section, parameter, value, "\n");
        NoBracket(section, parameter, value, "\n");
        assert s[..|token|] == section[..|token|];
      case Some(p) =>
        var nl := FindChar(section, '\n', p);
        var s := section[..p] + Line(parameter, value) + section[nl..];
        ReplacedSection(section, token, parameter, value, p, section[nl..]);
        ValueInSection(s, section[..p], parameter, value, section[nl..]);
    }
  }

  /** Editing a section puts no match of the parameter into a gap before it. */
  lemma {:induction false} GapStaysClear(gap: string, section: string, token: string, parameter: string, value: string,
                                         j: nat)
    requires Writable(token, parameter, value) && IsSection(section, token) && section[|section| - 1] == '\n'
    requires j < |gap| && !Matches(gap + section, parameter, j)
    ensures !Matches(gap + Edited(section, parameter, value), parameter, j)
  {
    var s := Edited(section, parameter, value);
    match FindParameter(section, parameter, 0) {
      case None =>
        if j + |parameter| <= |gap + section| {
          SamePrefix(gap, section, s, |section|);
          MatchInPrefix(gap + section, parameter, gap + s, j, |gap| + |section|);
        } else {
          NoMatchOver(gap + s, parameter, j, |gap| + |section| - 1);
        }
      case Some(p) =>
        FoundWithEquals(section, parameter, p);
        var m := p + |parameter| + 1;
        SameUpToEquals(section, parameter, value, p, section[FindChar(section, '\n', p)..]);
        SamePrefix(gap, section, s, m);
        MatchInPrefix(gap + section, parameter, gap + s, j, |gap| + m);
    }
  }

  lemma {:induction false} SamePrefix(gap: string, a: string, b: string, m: nat)
    requires m <= |a| && m <= |b| && a[..m] == b[..m]
    ensures (gap + a)[..|gap| + m] == (gap + b)[..|gap| + m]
  {
    assert (gap + a)[..|gap| + m] == gap + a[..m];
    assert (gap + b)[..|gap| + m] == gap + b[..m];
  }

  lemma {:induction false} GapIsClear(text: string, parameter: string, first: nat, header: nat, end: nat, j: nat)
    requires first <= header <= end <= |text| && j < header - first && !Matches(text, parameter, first + j)
    ensures !Matches(text[first..header] + text[header..end], parameter, j)
  {
    assert text[first..header] + text[header..end] == text[first..end];
    if j + |parameter| <= end - first { SliceOfSlice(text, first, end, j, j + |parameter|); }
  }

  /** If the token also occurs earlier in its own section, between the bracket and the header, the
      written value is read as long as no occurrence of the parameter begins in between. */
  lemma {:induction false} ReadBehindEarlierToken(text: string, token: string, parameter: string, value: string,
                                                  first: nat, header: nat)
    requires Writable(token, parameter, value) && SectionEndsInNewline(text, token)
    requires Find(text, token, 0) == Some(first) && Find(text, token + "]", 0) == Some(header)
    requires first < header < SectionEnd(text, first)
    requires forall j :: first <= j < header ==> !Matches(text, parameter, j)
    ensures Lookup(Update(text, token, parameter, value), token, parameter) == Some(value)
  {
    var end := SectionEnd(text, header);
    SectionParts(text, token, header, end);
    GapIsAllClear(text, token, parameter, value, first, header, end);
    GapOf(text, first, header);
    UpdateInSection(text, token, parameter, value, header, end);
    ReadsBehindGap(text, token, parameter, value, first, header, text[first..header], text[header..end], text[end..]);
  }

  lemma {:induction false} ReadsBehindGap(text: string, token: string, parameter: string, value: string,
                                          first: nat, header: nat, gap: string, section: string, after: string)
    requires Writable(token, parameter, value) && IsSection(section, token) && section[|section| - 1] == '\n'
    requires Find(text, token, 0) == Some(first) && Find(text, token + "]", 0) == Some(header) && first <= header
    requires text[..header] == text[..first] + gap && '[' !in gap && (after != "" ==> after[0] == '[')
    requires forall j :: 0 <= j < |gap| ==> !Matches(gap + Edited(section, parameter, value), parameter, j)
    ensures Lookup(text[..header] + Edited(section, parameter, value) + after, token, parameter) == Some(value)
  {
    var s := Edited(section, parameter, value);
    EditedSection(section, token, parameter, value);
    FirstStays(text, token, first, header, s, after);
    GapReads(text[..first], gap, s, after, token, parameter);
  }

  lemma {:induction false} GapOf(text: string, first: nat, header: nat)
    requires first <= |text| && first <= header < SectionEnd(text, first)
    ensures text[..header] == text[..first] + text[first..header] && '[' !in text[first..header]
  {
  }

  lemma {:induction false} GapIsAllClear(text: string, token: string, parameter: string, value: string,
                                         first: nat, header: nat, end: nat)
    requires first <= header < end <= |text| && Writable(token, parameter, value)
    requires IsSection(text[header..end], token) && text[end - 1] == '\n'
    requires forall j :: first <= j < header ==> !Matches(text, parameter, j)
    ensures var gap, s := text[first..header], Edited(text[header..end], parameter, value);
      forall j :: 0 <= j < |gap| ==> !Matches(gap + s, parameter, j)
  {
    var gap, section := text[first..header], text[header..end];
    forall j | 0 <= j < |gap| ensures !Matches(gap + Edited(section, parameter, value), parameter, j) {
      GapIsClear(text, parameter, first, header, end, j);
      GapStaysClear(gap, section, token, parameter, value, j);
    }
  }

  /** What is read does not depend on a clear gap at the front of the section. */
  lemma {:induction false} GapReads(before: string, gap: string, s: string, after: string, token: string,
                                    parameter: string)
    requires parameter != "" && '[' !in gap && '[' !in s && (after != "" ==> after[0] == '[')
    requires Find((before + gap) + s + after, token, 0) == Some(|before|)
    requires forall j :: 0 <= j < |gap| ==> !Matches(gap + s, parameter, j)
    ensures Lookup((before + gap) + s + after, token, parameter) == ValueIn(s, parameter)
  {
    var wide := gap + s;
    SectionGrows(before, gap, s, after);
    LookupInSection(before, wide, after, token, parameter);
    ValueBehind(wide, |gap|, s, parameter);
  }

  lemma {:induction false} SectionGrows(before: string, gap: string, s: string, after: string)
    ensures (before + gap) + s + after == before + (gap + s) + after && (gap + s)[|gap|..] == s
    ensures '[' !in gap && '[' !in s ==> '[' !in gap + s
  {
  }

  lemma {:induction false} FirstStays(text: string, token: string, first: nat, header: nat, s: string, after: string)
    requires Find(text, token, 0) == Some(first) && Find(text, token + "]", 0) == Some(header) && first <= header
    requires |token| <= |s| && s[..|token|] == token
    ensures Find(text[..header] + s + after, token, 0) == Some(first)
  {
    FindIsFirst(text, token + "]", 0);
    var m := header + |token|;
    assert text[..m] == text[..header] + text[header..header + |token + "]"|][..|token|];
    assert (text[..header] + s + after)[..m] == text[..header] + s[..|token|];
    FindInPrefix(text, token, text[..header] + s + after, 0, first, m);
  }

  lemma {:induction false} FindsNothing(s: string, t: string, from: nat)
    requires t != "" && t[0] !in s
    ensures Find(s, t, from) == None
    decreases |s| - from
  {
    if from + |t| > |s| {
    } else {
      NoMatchWithout(s, t, from);
      FindsNothing(s, t, from + 1);
    }
  }

  lemma {:induction false} NoMatchWithout(s: string, t: string, i: nat)
    requires t != "" && t[0] !in s
    ensures !Matches(s, t, i)
  {
    if Matches(s, t, i) { MatchChar(s, t, i, i); }
  }

  lemma {:induction false} HeaderOfExample()
    ensures Find("ab\n[ab]\n", "ab]", 0) == Some(4) && Find("ab\n[ab]\n", "ab", 0) == Some(0)
    ensures SectionEnd("ab\n[ab]\n", 0) == 3
  {
    var text := "ab\n[ab]\n";
    forall j | 0 <= j < 4 ensures !Matches(text, "ab]", j) { NoMatchOver(text, "ab]", j, if j < 3 then 2 else 3); }
    FindIs(text, "ab]", 0, 4);
    FindIs(text, "ab", 0, 0);
    assert text[0] == 'a' && text[1] == 'b' && text[2] == '\n';
    FindCharIs(text, '[', 0, 3);
  }

  /** The failing family is not empty: here the written value is not seen by the reader. */
  lemma {:induction false} WrittenValueIsLost()
    ensures Lookup(Update("ab\n[ab]\n", "ab", "x", "1"), "ab", "x") == None
  {
    var text, token := "ab\n[ab]\n", "ab";
    HeaderOfExample();
    assert token + "]" == "ab]" && token + "]\n" == "ab]\n" && "x" + "=" == "x=";
    FindsNothing("ab]\n", "x=", 0);
    MisdirectedReadIsUnchanged(text, token, "x", "1");
    assert text[0..3] == "ab\n";
    FindsNothing("ab\n", "x", 0);
  }

  // ---------------------------------------------------------------- what writing leaves alone

  /** One place without a newline in it is replaced by the given line; nothing else changes. */
  predicate EditsAt(text: string, u: string, line: string, a: nat, b: nat) {
    a <= b <= |text| && '\n' !in text[a..b] && u == text[..a] + line + text[b..]
  }

  /** What is taken out is an assignment up to the end of its line or of its section. */
  predicate IsAssignment(text: string, parameter: string, a: nat, b: nat) {
    a <= b <= |text| && parameter + "=" <= text[a..b] && (b < |text| ==> text[b] == '\n' || text[b] == '[')
  }

  /** Where writing edits: behind everything when the header is missing, at the end of its section
      when the parameter is, and otherwise at an assignment to the parameter in its section. */
  predicate EditPlace(text: string, token: string, parameter: string, value: string, line: string, a: nat, b: nat)
    requires parameter != ""
  {
    match Find(text, token + "]", 0)
    case None => a == b == |text| && line == NewSection(token, parameter, value)
    case Some(start) =>
      var end := SectionEnd(text, start);
      match FindParameter(text[start..end], parameter, 0)
      case None => a == b == end && line == Line(parameter, value) + "\n"
      case Some(p) =>
        a == start + p && b <= end && IsAssignment(text, parameter, a, b) && line == Line(parameter, value)
  }

  /** All text outside one line is unchanged, and the line is the one that was to be written. */
  lemma {:induction false} OnlyOneLineChanges(text: string, token: string, parameter: string, value: string)
    requires parameter != "" && '\n' !in parameter
    ensures exists a: nat, b: nat, line ::
      EditsAt(text, Update(text, token, parameter, value), line, a, b)
      && EditPlace(text, token, parameter, value, line, a, b)
  {
    var u := Update(text, token, parameter, value);
    match Find(text, token + "]", 0) {
      case None =>
        assert EditsAt(text, u, NewSection(token, parameter, value), |text|, |text|);
      case Some(start) =>
        var end := SectionEnd(text, start);
        match FindParameter(text[start..end], parameter, 0) {
          case None =>
            UpdateInserts(text, token, parameter, value, start, end);
            assert EditsAt(text, u, Line(parameter, value) + "\n", end, end);
          case Some(p) =>
            var nl := FindChar(text[start..end], '\n', p);
            UpdateReplaces(text, token, parameter, value, start, end, p, nl);
            FoundWithEquals(text[start..end], parameter, p);
            AssignmentIn(text, start, end, parameter, p, nl);
            assert EditsAt(text, u, Line(parameter, value), start + p, start + nl);
        }
    }
  }

  lemma {:induction false} SliceOfSlice(s: string, a: nat, b: nat, p: nat, q: nat)
    requires a <= b <= |s| && p <= q <= b - a
    ensures s[a..b][p..q] == s[a + p..a + q]
  {
    assert forall k :: 0 <= k < q - p ==> s[a..b][p..q][k] == s[a + p..a + q][k];
  }

  lemma {:induction false} AssignmentIn(text: string, start: nat, end: nat, parameter: string, p: nat, nl: nat)
    requires start <= end <= |text| && (end < |text| ==> text[end] == '[') && '\n' !in parameter
    requires p + |parameter| < end - start && text[start..end][p..p + |parameter| + 1] == parameter + "="
    requires p <= nl == FindChar(text[start..end], '\n', p)
    ensures start + nl <= |text| && '\n' !in text[start + p..start + nl]
    ensures IsAssignment(text, parameter, start + p, start + nl)
  {
    var section, m := text[start..end], p + |parameter| + 1;
    SliceOfSlice(text, start, end, p, nl);
    forall j | p <= j < m ensures section[j] != '\n' { MatchChar(section, parameter + "=", p, j); }
    SliceOfSlice(section, p, nl, 0, m - p);
    assert parameter + "=" <= text[start + p..start + nl];
    if start + nl < |text| && nl < |section| { assert text[start + nl] == section[nl]; }
  }
}
