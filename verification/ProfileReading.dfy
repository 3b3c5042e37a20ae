/** What read_profile returns, in terms of the characters of the text: when it fails, which value it
    finds, and for which parameters it can miss an assignment that is there. */
module ProfileReading {
  import opened Common
  import opened Profiles

  // ---------------------------------------------------------------- assignments

  /** The first occurrence of the token is at i. */
  ghost predicate Begins(text: string, token: string, i: nat) {
    Matches(text, token, i) && forall j: nat :: j < i ==> !Matches(text, token, j)
  }

  /** The parameter and an equals sign stand at q, in the section that begins at i. */
  ghost predicate Assigned(text: string, parameter: string, i: nat, q: nat) {
    i <= q && Matches(text, parameter + "=", q) && forall j :: i <= j <= q + |parameter| ==> text[j] != '['
  }

  ghost predicate Plain(parameter: string) { '=' !in parameter }

  /** A part of the text at its end is also the beginning of it. */
  ghost predicate SelfOverlaps(t: string) { exists k :: 0 < k < |t| && t[k..] == t[..|t| - k] }

  lemma {:induction false} MatchWithEquals(s: string, t: string, q: nat)
    ensures Matches(s, t + "=", q) <==> Matches(s, t, q) && q + |t| < |s| && s[q + |t|] == '='
  {
    if q + |t| < |s| { assert s[q..q + |t| + 1] == s[q..q + |t|] + [s[q + |t|]]; }
    if Matches(s, t + "=", q) {
      assert s[q..q + |t|] == s[q..q + |t| + 1][..|t|];
    }
  }

  /** Two matches less than a length apart overlap. */
  lemma {:induction false} MatchesApart(s: string, t: string, p: nat, q: nat)
    requires Matches(s, t, p) && Matches(s, t, q) && p < q < p + |t|
    ensures SelfOverlaps(t)
  {
    var k := q - p;
    assert s[p..p + |t|][k..] == s[q..p + |t|] == s[q..q + |t|][..|t| - k];
  }

  /** A parameter that cannot overlap itself is found if it is assigned. */
  lemma {:induction false} AssignedIsFound(section: string, parameter: string, from: nat, q: nat)
    requires parameter != "" && !SelfOverlaps(parameter) && from <= q && Matches(section, parameter + "=", q)
    ensures FindParameter(section, parameter, from).Some?
    decreases |section| - from
  {
    MatchWithEquals(section, parameter, q);
    FindIsFirst(section, parameter, from);
    SearchStep(section, parameter, from);
    var p := Find(section, parameter, from).value;
    if section[p + |parameter|] != '=' {
      if q < p + |parameter| { MatchesApart(section, parameter, p, q); }
      AssignedIsFound(section, parameter, p + |parameter|, q);
    }
  }

  /** Any other parameter is missed behind its own beginning. */
  lemma {:induction false} OverlapIsMissed(parameter: string, k: nat, section: string)
    requires 0 < k < |parameter| && parameter[k..] == parameter[..|parameter| - k] && '=' !in parameter
    requires section == parameter[..k] + parameter + "="
    ensures Matches(section, parameter + "=", k) && FindParameter(section, parameter, 0) == None
  {
    var n := |parameter|;
    assert section[k..k + n + 1] == parameter + "=";
    assert section[..n] == parameter[..k] + parameter[k..] == parameter;
    SearchStep(section, parameter, 0);
    assert section[n] == parameter[n - k];
    SearchStep(section, parameter, n);
    if n + n <= |section| {
      assert section[n + n - 1] == '=';
      assert section[n..n + n][n - 1] == '=';
    }
  }

  // ---------------------------------------------------------------- the section in the text

  lemma {:induction false} Inner(text: string, i: nat, end: nat, a: nat, b: nat)
    requires i <= end <= |text| && a <= b <= end - i
    ensures text[i..end][a..b] == text[i + a..i + b]
  {
    var s, t := text[i..end][a..b], text[i + a..i + b];
    assert |s| == |t| && forall k :: 0 <= k < |s| ==> s[k] == t[k];
  }

  lemma {:induction false} InSection(text: string, parameter: string, i: nat, end: nat, q: nat)
    requires i <= q && i <= end <= |text| && end == SectionEnd(text, i)
    ensures Matches(text[i..end], parameter + "=", q - i) <==> Assigned(text, parameter, i, q)
  {
    var t := parameter + "=";
    if q + |t| <= end { Inner(text, i, end, q - i, q - i + |t|); }
    if Assigned(text, parameter, i, q) {
      assert q + |parameter| < |text|;
    }
  }

  /** What the search in the section that begins at i finds, in terms of the text. */
  lemma {:induction false} FoundIsAssigned(text: string, parameter: string, i: nat, end: nat, section: string, p: nat)
    requires parameter != "" && i <= end <= |text| && end == SectionEnd(text, i) && section == text[i..end]
    requires FindParameter(section, parameter, 0) == Some(p)
    ensures Assigned(text, parameter, i, i + p)
  {
    FindParameterMatches(section, parameter, 0);
    MatchWithEquals(section, parameter, p);
    InSection(text, parameter, i, end, i + p);
  }

  lemma {:induction false} NoneIsAssigned(text: string, parameter: string, i: nat, end: nat, section: string)
    requires parameter != "" && i <= end <= |text| && end == SectionEnd(text, i) && section == text[i..end]
    requires FindParameter(section, parameter, 0) == None && !SelfOverlaps(parameter)
    ensures forall q: nat :: !Assigned(text, parameter, i, q)
  {
    forall q: nat ensures !Assigned(text, parameter, i, q) {
      if i <= q {
        InSection(text, parameter, i, end, q);
        if Matches(section, parameter + "=", q - i) { AssignedIsFound(section, parameter, 0, q - i); }
      }
    }
  }

  lemma {:induction false} FirstToken(text: string, token: string, i: nat)
    ensures Begins(text, token, i) <==> Find(text, token, 0) == Some(i)
  {
    FindIsFirst(text, token, 0);
    if Begins(text, token, i) { FindIs(text, token, 0, i); }
  }

  /** Reading fails if the text has no token, or the section behind the first one no assignment to the
      parameter; and only then, unless the parameter can overlap itself. */
  lemma {:induction false} ReadingFails(text: string, token: string, parameter: string)
    requires parameter != ""
    ensures (forall i: nat, q: nat :: !(Begins(text, token, i) && Assigned(text, parameter, i, q))) ==>
      Lookup(text, token, parameter) == None
    ensures !SelfOverlaps(parameter) && Lookup(text, token, parameter) == None ==>
      forall i: nat, q: nat :: !(Begins(text, token, i) && Assigned(text, parameter, i, q))
  {
    forall i: nat { FirstToken(text, token, i); }
    match Find(text, token, 0)
    case None =>
    case Some(start) =>
      var end := SectionEnd(text, start);
      var section := text[start..end];
      match FindParameter(section, parameter, 0) {
        case Some(p) => FoundIsAssigned(text, parameter, start, end, section, p);
        case None => if !SelfOverlaps(parameter) { NoneIsAssigned(text, parameter, start, end, section); }
      }
  }

  // ---------------------------------------------------------------- the value

  /** The value v stands behind place e, up to the end of its line, of the section, or of the text. */
  ghost predicate StandsBehind(text: string, e: nat, v: string) {
    && Matches(text, v, e + 1) && (forall j :: e < j <= e + |v| ==> text[j] != '\n' && text[j] != '[')
    && (e + 1 + |v| < |text| ==> text[e + 1 + |v|] == '\n' || text[e + 1 + |v|] == '[')
  }

  /** The first equals sign at or behind a found parameter. */
  lemma {:induction false} EqualsOf(section: string, parameter: string, p: nat, eq: nat)
    requires parameter != "" && FindParameter(section, parameter, 0) == Some(p) && eq == FindChar(section, '=', p)
    ensures p <= eq <= p + |parameter| && eq < |section| && (Plain(parameter) ==> eq == p + |parameter|)
  {
    FindParameterMatches(section, parameter, 0);
    assert section[p + |parameter|] == '=';
    if eq < p + |parameter| {
      assert parameter[eq - p] == section[p..p + |parameter|][eq - p] == '=';
    }
  }

  /** The section at i assigns v to the parameter at q: v stands behind the first equals sign from there,
      the parameter's own unless it contains one. */
  ghost predicate Assigns(text: string, parameter: string, i: nat, q: nat, e: nat, v: string) {
    && Assigned(text, parameter, i, q) && StandsBehind(text, e, v)
    && q <= e < |text| && text[e] == '=' && (forall j :: q <= j < e ==> text[j] != '=')
    && (Plain(parameter) ==> e == q + |parameter|)
  }

  /** A value that is read was assigned to the parameter in the first section of the token. */
  lemma {:induction false} ReadingSucceeds(text: string, token: string, parameter: string, v: string)
    returns (i: nat, q: nat, e: nat)
    requires parameter != "" && Lookup(text, token, parameter) == Some(v)
    ensures Begins(text, token, i) && Assigns(text, parameter, i, q, e, v)
  {
    i := Find(text, token, 0).value;
    FirstToken(text, token, i);
    var section := text[i..SectionEnd(text, i)];
    var p := FindParameter(section, parameter, 0).value;
    q, e := PlacesIn(text, parameter, i, section, p, v);
  }

  lemma {:induction false} PlacesIn(text: string, parameter: string, i: nat, section: string, p: nat, v: string)
    returns (q: nat, e: nat)
    requires parameter != "" && i <= |text| && section == text[i..SectionEnd(text, i)]
    requires FindParameter(section, parameter, 0) == Some(p) && v == ValueAt(section, parameter, p)
    ensures Assigns(text, parameter, i, q, e, v)
  {
    q, e := i + p, i + FindChar(section, '=', p);
    ValueFound(text, parameter, i, SectionEnd(text, i), section, p, e - i, v);
  }

  lemma {:induction false} ValueFound(text: string, parameter: string, i: nat, end: nat, section: string, p: nat,
                                      eq: nat, v: string)
    requires parameter != "" && i <= end <= |text| && end == SectionEnd(text, i) && section == text[i..end]
    requires FindParameter(section, parameter, 0) == Some(p) && eq == FindChar(section, '=', p)
    requires v == ValueAt(section, parameter, p)
    ensures Assigns(text, parameter, i, i + p, i + eq, v)
  {
    FoundIsAssigned(text, parameter, i, end, section, p);
    EqualsOf(section, parameter, p, eq);
    ValueStands(text, i, end, section, eq);
    FirstEquals(text, i, end, section, p, eq);
  }

  lemma {:induction false} FirstEquals(text: string, i: nat, end: nat, section: string, p: nat, eq: nat)
    requires i <= end <= |text| && section == text[i..end] && p <= |section| && eq == FindChar(section, '=', p)
    requires eq < |section|
    ensures text[i + eq] == '=' && forall j :: i + p <= j < i + eq ==> text[j] != '='
  {
    forall j | i + p <= j < i + eq ensures text[j] != '=' { assert text[j] == section[j - i]; }
  }

  lemma {:induction false} ValueStands(text: string, i: nat, end: nat, section: string, eq: nat)
    requires i <= end <= |text| && end == SectionEnd(text, i) && section == text[i..end]
    requires eq < |section| && section[eq] == '='
    ensures eq + 1 <= FindChar(section, '\n', eq)
    ensures StandsBehind(text, i + eq, section[eq + 1..FindChar(section, '\n', eq)])
  {
    var newline := FindChar(section, '\n', eq);
    var v := section[eq + 1..newline];
    assert text[i + eq + 1..i + newline] == v;
    forall j | i + eq < j <= i + eq + |v| ensures text[j] != '\n' && text[j] != '[' {
      assert text[j] == section[j - i];
    }
  }

  // ---------------------------------------------------------------- what is written

  /** A new section, alone and behind a text. */
  lemma {:induction false} WrittenText(s: string, p: string, v: string)
    requires s == "S" && p == "p" && v == "v"
    ensures Update("", s, p, v) == "[S]\np=v\n" && Update("x\n", s, p, v) == "x\n[S]\np=v\n"
  {
  }
}
