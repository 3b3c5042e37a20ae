/** The INI profile reader and writer of profiles_management.c as edits of a text located by
    substring search, and when a written parameter reads back. */
module Profiles {
  import opened Common

  // ---------------------------------------------------------------- the C library on text

  predicate Matches(s: string, t: string, i: nat) { i + |t| <= |s| && s[i..i + |t|] == t }

  /** strstr from a position. */
  function Find(s: string, t: string, from: nat): (r: Option<nat>)
    ensures r.Some? ==> from <= r.value && r.value + |t| <= |s|
    decreases |s| - from
  {
    if from + |t| > |s| then None
    else if Matches(s, t, from) then Some(from)
    else Find(s, t, from + 1)
  }

  /** strstr yields the first match, or says that there is none. */
  lemma {:induction false} FindIsFirst(s: string, t: string, from: nat)
    ensures match Find(s, t, from)
      case Some(i) => Matches(s, t, i) && forall j :: from <= j < i ==> !Matches(s, t, j)
      case None => forall j :: from <= j ==> !Matches(s, t, j)
    decreases |s| - from
  {
    if from + |t| <= |s| && !Matches(s, t, from) { FindIsFirst(s, t, from + 1); }
  }

  /** strchr from a position, or the end of the text. */
  function FindChar(s: string, c: char, from: nat): (r: nat)
    requires from <= |s|
    ensures from <= r <= |s| && (r < |s| ==> s[r] == c)
    ensures forall j :: from <= j < r ==> s[j] != c
    decreases |s| - from
  {
    if from == |s| || s[from] == c then from else FindChar(s, c, from + 1)
  }

  lemma {:induction false} FindCharIs(s: string, c: char, from: nat, r: nat)
    requires from <= r <= |s| && (r < |s| ==> s[r] == c)
    requires forall j :: from <= j < r ==> s[j] != c
    ensures FindChar(s, c, from) == r
  {
  }

  lemma {:induction false} FindIs(s: string, t: string, from: nat, i: nat)
    requires from <= i && Matches(s, t, i) && forall j :: from <= j < i ==> !Matches(s, t, j)
    ensures Find(s, t, from) == Some(i)
  {
    FindIsFirst(s, t, from);
  }

  /** A match that lies in a common prefix is a match in both texts. */
  lemma {:induction false} MatchInPrefix(s: string, t: string, u: string, i: nat, m: nat)
    requires m <= |s| && m <= |u| && s[..m] == u[..m] && i + |t| <= m
    ensures Matches(s, t, i) == Matches(u, t, i)
  {
    assert s[i..i + |t|] == s[..m][i..i + |t|];
    assert u[i..i + |t|] == u[..m][i..i + |t|];
  }

  /** The first match depends only on the text up to its end. */
  lemma {:induction false} FindInPrefix(s: string, t: string, u: string, from: nat, i: nat, m: nat)
    requires m <= |s| && m <= |u| && s[..m] == u[..m] && i + |t| <= m
    requires Find(s, t, from) == Some(i)
    ensures Find(u, t, from) == Some(i)
  {
    FindIsFirst(s, t, from);
    forall j | from <= j <= i ensures Matches(s, t, j) == Matches(u, t, j) { MatchInPrefix(s, t, u, j, m); }
    FindIs(u, t, from, i);
  }

  // ---------------------------------------------------------------- sections and parameters

  /** A section runs from its token to the next opening bracket. */
  function SectionEnd(text: string, start: nat): nat
    requires start <= |text|
  {
    FindChar(text, '[', start)
  }

  /** The search loop: the first match followed by an equals sign, skipping whole matches. */
  function FindParameter(section: string, parameter: string, from: nat): (r: Option<nat>)
    requires parameter != ""
    ensures r.Some? ==> from <= r.value && r.value + |parameter| < |section|
    ensures r.Some? ==> section[r.value + |parameter|] == '='
    decreases |section| - from
  {
    match Find(section, parameter, from)
    case None => None
    case Some(p) =>
      if p + |parameter| < |section| && section[p + |parameter|] == '=' then Some(p)
      else FindParameter(section, parameter, p + |parameter|)
  }

  /** What the parameter search finds is an assignment to the parameter. */
  lemma {:induction false} FindParameterMatches(section: string, parameter: string, from: nat)
    requires parameter != "" && FindParameter(section, parameter, from).Some?
    ensures Matches(section, parameter, FindParameter(section, parameter, from).value)
    decreases |section| - from
  {
    FindIsFirst(section, parameter, from);
    var p := Find(section, parameter, from).value;
    if section[p + |parameter|] != '=' { FindParameterMatches(section, parameter, p + |parameter|); }
  }

  /** One turn of the search loop. */
  lemma {:induction false} SearchStep(section: string, parameter: string, from: nat)
    requires parameter != ""
    ensures match Find(section, parameter, from)
      case None => FindParameter(section, parameter, from) == None
      case Some(p) =>
        FindParameter(section, parameter, from)
        == if p + |parameter| < |section| && section[p + |parameter|] == '=' then Some(p)
           else FindParameter(section, parameter, p + |parameter|)
  {
  }

  /** The value of a parameter: the text between its equals sign and the end of the line. */
  function ValueIn(section: string, parameter: string): Option<string>
    requires parameter != ""
  {
    match FindParameter(section, parameter, 0)
    case None => None
    case Some(p) => Some(ValueAt(section, parameter, p))
  }

  function ValueAt(section: string, parameter: string, p: nat): string
    requires p + |parameter| < |section| && section[p + |parameter|] == '='
  {
    var eq := FindChar(section, '=', p);
    section[eq + 1..FindChar(section, '\n', eq)]
  }

  /** read_profile: the section starts at the first occurrence of the token itself. */
  function Lookup(text: string, token: string, parameter: string): Option<string>
    requires parameter != ""
  {
    match Find(text, token, 0)
    case None => None
    case Some(start) => ValueIn(text[start..SectionEnd(text, start)], parameter)
  }

  function Line(parameter: string, value: string): string { parameter + "=" + value }

  function NewSection(token: string, parameter: string, value: string): string {
    "[" + token + "]\n" + Line(parameter, value) + "\n"
  }

  /** write_profile: here the section starts at the first occurrence of the token with its closing
      bracket. The line is replaced, inserted at the section's end, or appended in a new section. */
  function Update(text: string, token: string, parameter: string, value: string): string
    requires parameter != ""
  {
    match Find(text, token + "]", 0)
    case None => text + NewSection(token, parameter, value)
    case Some(start) =>
      var end := SectionEnd(text, start);
      var section := text[start..end];
      match FindParameter(section, parameter, 0)
      case Some(p) =>
        text[..start + p] + Line(parameter, value) + text[start + FindChar(section, '\n', p)..]
      case None =>
        text[..end] + (Line(parameter, value) + "\n") + text[end..]
  }

  // ---------------------------------------------------------------- the C functions

  /** A profile file; its text has no NUL character. */
  class ProfileFile {
    var text: Option<string>

    constructor ()
      ensures text == None
    {
      text := None;
    }

    method ReadProfile(token: string, parameter: string) returns (ret: int, value: string)
      requires parameter != ""
      ensures text.None? ==> ret == -1
      ensures text.Some? ==> match Lookup(text.value, token, parameter)
        case None => ret == -1
        case Some(v) => ret == |v| && value == v
    {
      value := "";
      if text.None? {
        return -1, value;
      }
      var start := Find(text.value, token, 0);
      if start.None? {
        return -1, value;
      }
      var section := text.value[start.value..SectionEnd(text.value, start.value)];
      var p := SearchParameter(section, parameter);
      if p.None? {
        return -1, value;
      }
      var eq := FindChar(section, '=', p.value);
      value := section[eq + 1..FindChar(section, '\n', eq)];
      return |value|, value;
    }

    /** The while loop of both functions, lines 154 to 173 and 307 to 346. */
    static method SearchParameter(section: string, parameter: string) returns (p: Option<nat>)
      requires parameter != ""
      ensures p == FindParameter(section, parameter, 0)
    {
      var from := 0;
      while true
        invariant from <= |section|
        invariant FindParameter(section, parameter, from) == FindParameter(section, parameter, 0)
        decreases |section| - from
      {
        SearchStep(section, parameter, from);
        p := Find(section, parameter, from);
        if p.None? {
          return;
        }
        if p.value + |parameter| < |section| && section[p.value + |parameter|] == '=' {
          return;
        }
        from := p.value + |parameter|;
      }
    }

    /** A matched line without a newline behind it makes the source dereference a null pointer and
        is excluded. */
    method WriteProfile(token: string, parameter: string, value: string) returns (ret: int)
      requires parameter != ""
      requires text.Some? ==> NewlineFollows(text.value, token, parameter)
      modifies this
      ensures text == Some(Update(old(if text.Some? then text.value else ""), token, parameter, value))
      ensures ret == 0
    {
      ret := 0;
      if text.None? {
        NoMatchInNothing(token);
        text := Some(NewSection(token, parameter, value));
        assert "" + text.value == text.value;
        return;
      }
      var t := text.value;
      var tokenBuffer := token + "]";
      var start := if |t| < |tokenBuffer| then None else Find(t, tokenBuffer, 0);
      if start.None? {
        text := Some(t + NewSection(token, parameter, value));
        return;
      }
      var end := SectionEnd(t, start.value);
      var section := t[start.value..end];
      var p := SearchParameter(section, parameter);
      if p.Some? {
        var newline := FindChar(section, '\n', p.value);
        text := Some(t[..start.value + p.value] + Line(parameter, value) + t[start.value + newline..]);
      } else {
        text := Some(t[..end] + (Line(parameter, value) + "\n") + t[end..]);
      }
    }
  }

  lemma {:induction false} NoMatchInNothing(token: string)
    ensures Find("", token + "]", 0) == None
  {
  }

  /** If the parameter is found, a newline follows it in its section. */
  predicate NewlineFollows(text: string, token: string, parameter: string)
    requires parameter != ""
  {
    match Find(text, token + "]", 0)
    case None => true
    case Some(start) =>
      var section := text[start..SectionEnd(text, start)];
      match FindParameter(section, parameter, 0)
      case None => true
      case Some(p) => FindChar(section, '\n', p) < |section|
  }
}
