/** Splitting a decoded URI into its components (RFC 3986, section 3), through static variables that
    outlive each construction. */
module UriParts {
  import Bytes
  import opened Options
  import opened Seqs
  import opened Text

  const NPOS: nat := 0xFFFF_FFFF_FFFF_FFFF

  const SCHEME: nat := 0
  const AUTHORITY: nat := 1
  const PATH: nat := 2
  const QUERY: nat := 3
  const FRAGMENT: nat := 4
  const USERINFO: nat := 5
  const HOST: nat := 6
  const PORT: nat := 7

  const AFTER_SCHEME: Chars := [58, 47, 47]
  const SLASH_MARK: Chars := [47]
  const COLON_MARK: Chars := [COLON]
  const QUESTION_MARK: Chars := [63]
  const HASH_MARK: Chars := [35]
  const AT_MARK: Chars := [64]

  /** Arithmetic of size_t. */
  function Plus(a: nat, b: nat): nat {
    (a + b) % Bytes.TWO_TO_THE_64
  }

  function Minus(a: nat, b: nat): nat {
    (a - b) % Bytes.TWO_TO_THE_64
  }

  lemma NoWrap(a: nat, b: nat)
    ensures a + b <= NPOS ==> Plus(a, b) == a + b
    ensures b <= a <= NPOS ==> Minus(a, b) == a - b
  {
  }

  /** Adding one to "not found" gives the beginning of the string. */
  lemma WrapAround(c: nat)
    requires c < NPOS
    ensures Plus(NPOS, 1) == 0 && Minus(Minus(c, NPOS), 1) == c
  {
  }

  function Find(s: Chars, pattern: Chars, from: nat): (i: nat)
    ensures |pattern| > 0 ==> i == NPOS || from <= i <= |s| - |pattern|
    decreases |s| - from
  {
    if from + |pattern| > |s| then NPOS
    else if s[from..from + |pattern|] == pattern then from
    else if from < |s| then Find(s, pattern, from + 1)
    else NPOS
  }

  /** None stands for the exception std::out_of_range. */
  function Substr(s: Chars, pos: nat, count: nat): Option<Chars> {
    if pos > |s| then None else if count < |s| - pos then Some(s[pos..pos + count]) else Some(s[pos..])
  }

  datatype Statics = Statics(step: nat, mark: nat, mark2: nat)

  /** The step a call of `next` performs. */
  function NextStep(step: nat): nat {
    if step == PORT then SCHEME else step + 1
  }

  /** One call of `next`: the statics it leaves, and the view it returns unless it throws. */
  function Advance(st: Statics, uri: Chars, schemeEmpty: bool): (Statics, Option<Chars>) {
    var step := NextStep(st.step);
    var st := st.(step := step);
    if step == SCHEME then
      var mark := Find(uri, AFTER_SCHEME, 0);
      (st.(mark := mark), if mark == NPOS then Some([]) else Substr(uri, 0, mark))
    else if step == AUTHORITY then
      var mark2 := Find(uri, SLASH_MARK, if schemeEmpty then 0 else Plus(st.mark, 3));
      if mark2 == NPOS then (st.(mark2 := Minus(|uri|, 1)), Some([]))
      else if schemeEmpty then (st.(mark2 := mark2), Some([]))
      else (st.(mark2 := mark2), Substr(uri, Plus(st.mark, 3), Minus(Minus(mark2, st.mark), 3)))
    else if step == PATH then
      var mark := Find(uri, QUESTION_MARK, if schemeEmpty then 0 else Plus(st.mark2, 1));
      if mark != NPOS then (st.(mark := mark), Substr(uri, st.mark2, Minus(mark, st.mark2)))
      else
        var hash := Find(uri, HASH_MARK, 0);
        if hash == NPOS then (st.(mark := Minus(|uri|, 1)), Substr(uri, st.mark2, NPOS))
        else (st.(mark := hash), Substr(uri, st.mark2, Minus(hash, st.mark2)))
    else if step == QUERY then
      var mark2 := Find(uri, HASH_MARK, Plus(st.mark, 1));
      if mark2 == NPOS then (st.(mark2 := Minus(|uri|, 1)), Substr(uri, Plus(st.mark, 1), NPOS))
      else (st.(mark2 := mark2), Substr(uri, Plus(st.mark, 1), Minus(Minus(mark2, st.mark), 1)))
    else if step == FRAGMENT then
      (st, Substr(uri, Plus(st.mark2, 1), NPOS))
    else if step == USERINFO then
      var mark := Find(uri, AT_MARK, 0);
      (st.(mark := mark), if mark == NPOS then Some([]) else Substr(uri, 0, mark))
    else if step == HOST then
      var mark2 := Find(uri, COLON_MARK, Plus(st.mark, 1));
      (st.(mark2 := mark2),
       if mark2 == NPOS then Substr(uri, Plus(st.mark, 1), NPOS)
       else Substr(uri, Plus(st.mark, 1), Minus(Minus(mark2, st.mark), 1)))
    else if step == PORT then
      (st, if st.mark2 != NPOS then Substr(uri, Plus(st.mark2, 1), NPOS) else Some([]))
    else (st, Some([]))
  }

  /** A construction: the fields in the order of their declaration, or the exception. */
  datatype Outcome = Built(st: Statics, fields: seq<Chars>) | Threw(st: Statics)

  /** The first five fields are cut from the decoded string, the others from the authority. */
  function Input(s: Chars, got: seq<Chars>): Chars {
    if |got| < 5 then s else got[1]
  }

  function SchemeEmpty(got: seq<Chars>): bool {
    |got| == 0 || got[0] == []
  }

  function Construct(st: Statics, s: Chars, got: seq<Chars>): Outcome
    requires |got| <= 8
    decreases 8 - |got|
  {
    if |got| == 8 then Built(st, got)
    else
      match Advance(st, Input(s, got), SchemeEmpty(got))
      case (next, None) => Threw(next)
      case (next, Some(v)) => Construct(next, s, got + [v])
  }

  class Splitter {
    var step: nat
    var mark: nat
    var mark2: nat

    ghost function Now(): Statics
      reads this
    {
      Statics(step, mark, mark2)
    }

    constructor ()
      ensures Now() == Statics(PORT, 0, 0)
    {
      step, mark, mark2 := PORT, 0, 0;
    }

    method Next(uri: Chars, schemeEmpty: bool) returns (view: Option<Chars>)
      modifies this
      ensures (Now(), view) == Advance(old(Now()), uri, schemeEmpty)
    {
      hide Find, Substr;
      step := if step == PORT then SCHEME else step + 1;
      if step == SCHEME {
        mark := Find(uri, AFTER_SCHEME, 0);
        return if mark == NPOS then Some([]) else Substr(uri, 0, mark);
      } else if step == AUTHORITY {
        mark2 := Find(uri, SLASH_MARK, if schemeEmpty then 0 else Plus(mark, 3));
        if mark2 == NPOS {
          mark2 := Minus(|uri|, 1);
          return Some([]);
        }
        if schemeEmpty {
          return Some([]);
        }
        return Substr(uri, Plus(mark, 3), Minus(Minus(mark2, mark), 3));
      } else if step == PATH {
        mark := Find(uri, QUESTION_MARK, if schemeEmpty then 0 else Plus(mark2, 1));
        if mark == NPOS {
          mark := Find(uri, HASH_MARK, 0);
          if mark == NPOS {
            mark := Minus(|uri|, 1);
            return Substr(uri, mark2, NPOS);
          }
        }
        return Substr(uri, mark2, Minus(mark, mark2));
      } else if step == QUERY {
        mark2 := Find(uri, HASH_MARK, Plus(mark, 1));
        if mark2 == NPOS {
          mark2 := Minus(|uri|, 1);
          return Substr(uri, Plus(mark, 1), NPOS);
        }
        return Substr(uri, Plus(mark, 1), Minus(Minus(mark2, mark), 1));
      } else if step == FRAGMENT {
        return Substr(uri, Plus(mark2, 1), NPOS);
      } else if step == USERINFO {
        mark := Find(uri, AT_MARK, 0);
        return if mark == NPOS then Some([]) else Substr(uri, 0, mark);
      } else if step == HOST {
        mark2 := Find(uri, COLON_MARK, Plus(mark, 1));
        if mark2 == NPOS {
          return Substr(uri, Plus(mark, 1), NPOS);
        }
        return Substr(uri, Plus(mark, 1), Minus(Minus(mark2, mark), 1));
      } else if step == PORT && mark2 != NPOS {
        return Substr(uri, Plus(mark2, 1), NPOS);
      }
      return Some([]);
    }

    /** The eight member initialisers, in declaration order. */
    method Split(s: Chars) returns (fields: seq<Chars>, threw: bool)
      modifies this
      ensures Construct(old(Now()), s, []) == if threw then Threw(Now()) else Built(Now(), fields)
    {
      hide Advance;
      fields := [];
      for k := 0 to 8
        invariant |fields| == k
        invariant Construct(old(Now()), s, []) == Construct(Now(), s, fields)
      {
        var view := Next(Input(s, fields), SchemeEmpty(fields));
        if view.None? {
          return fields, true;
        }
        fields := fields + [view.value];
      }
      threw := false;
    }
  }

  // ----- Searching

  lemma {:induction false} FindFrom(s: Chars, pattern: Chars, from: nat, i: nat)
    requires |pattern| > 0 && from <= i && i + |pattern| <= |s| && s[i..i + |pattern|] == pattern
    requires forall j :: from <= j < i ==> s[j] != pattern[0]
    ensures Find(s, pattern, from) == i
    decreases i - from
  {
    if from < i {
      assert s[from..from + |pattern|][0] != pattern[0];
      FindFrom(s, pattern, from + 1, i);
    }
  }

  lemma {:induction false} FindNothing(s: Chars, pattern: Chars, from: nat)
    requires |pattern| > 0
    requires forall j :: from <= j < |s| ==> s[j] != pattern[0]
    ensures Find(s, pattern, from) == NPOS
    decreases |s| - from
  {
    if from + |pattern| <= |s| {
      assert s[from..from + |pattern|][0] != pattern[0];
      FindNothing(s, pattern, from + 1);
    }
  }

  /** The first occurrence past a prefix. */
  lemma FindPast(s: Chars, before: Chars, mid: Chars, pattern: Chars, after: Chars)
    requires |pattern| > 0 && s == before + mid + pattern + after && pattern[0] !in mid
    ensures Find(s, pattern, |before|) == |before| + |mid|
  {
    var i := |before| + |mid|;
    assert s[i..i + |pattern|] == pattern;
    forall j | |before| <= j < i ensures s[j] != pattern[0] {
      assert s[j] == mid[j - |before|];
    }
    FindFrom(s, pattern, |before|, i);
  }

  lemma FindNonePast(s: Chars, before: Chars, rest: Chars, pattern: Chars)
    requires |pattern| > 0 && s == before + rest && pattern[0] !in rest
    ensures Find(s, pattern, |before|) == NPOS
  {
    forall j | |before| <= j < |s| ensures s[j] != pattern[0] {
      assert s[j] == rest[j - |before|];
    }
    FindNothing(s, pattern, |before|);
  }

  lemma SubstrPast(s: Chars, before: Chars, mid: Chars, after: Chars)
    requires s == before + mid + after
    ensures Substr(s, |before|, |mid|) == Some(mid)
    ensures |s| < NPOS ==> Substr(s, |before|, NPOS) == Some(mid + after)
  {
    assert s[|before|..|before| + |mid|] == mid;
    assert s[|before|..] == mid + after;
    assert after == [] ==> mid + after == mid;
  }

  lemma SubstrIs(s: Chars, from: nat, to: nat)
    requires from <= to <= |s| < NPOS
    ensures Substr(s, from, to - from) == Some(s[from..to])
    ensures Substr(s, from, NPOS) == Some(s[from..])
  {
    assert s[from..] == s[from..|s|];
  }

  lemma OneMore(st: Statics, s: Chars, got: seq<Chars>, next: Statics, v: Chars)
    requires |got| < 8 && Advance(st, Input(s, got), SchemeEmpty(got)) == (next, Some(v))
    ensures Construct(st, s, got) == Construct(next, s, got + [v])
  {
    hide Advance;
  }

  lemma Done(st: Statics, s: Chars, fields: seq<Chars>)
    requires |fields| == 8
    ensures Construct(st, s, fields) == Built(st, fields)
  {
  }

  lemma {:induction false} FieldsKeep(st: Statics, s: Chars, got: seq<Chars>)
    requires |got| <= 8
    ensures Construct(st, s, got).Built? ==> got <= Construct(st, s, got).fields && |Construct(st, s, got).fields| == 8
    decreases 8 - |got|
  {
    hide Advance;
    if |got| < 8 {
      var (next, view) := Advance(st, Input(s, got), SchemeEmpty(got));
      if view.Some? {
        FieldsKeep(next, s, got + [view.value]);
      }
    }
  }

  // ----- The authority

  datatype Parts = Parts(userinfo: Chars, host: Chars, port: Chars)

  /** Userinfo, host and port as the program cuts them. */
  function AuthorityParts(a: Chars): Parts
    requires |a| < NPOS
  {
    var at := Find(a, AT_MARK, 0);
    var from := if at == NPOS then 0 else at + 1;
    var colon := Find(a, COLON_MARK, from);
    Parts(if at == NPOS then [] else a[..at],
          if colon == NPOS then a[from..] else a[from..colon],
          if colon == NPOS then [] else a[colon + 1..])
  }

  function Fields(p: Parts): seq<Chars> {
    [p.userinfo, p.host, p.port]
  }

  lemma UserinfoStep(st: Statics, a: Chars, b: bool)
    requires st.step == FRAGMENT && |a| < NPOS
    ensures var at := Find(a, AT_MARK, 0);
            && (at == NPOS || at < |a|)
            && Advance(st, a, b) == (Statics(USERINFO, at, st.mark2), Some(if at == NPOS then [] else a[..at]))
  {
    hide Find;
  }

  lemma HostMarks(mark: nat, to: nat)
    requires to < NPOS && (mark == NPOS || mark < to)
    ensures var from := if mark == NPOS then 0 else mark + 1;
            Plus(mark, 1) == from && Minus(Minus(to, mark), 1) == to - from
  {
    hide Plus, Minus;
    if mark == NPOS {
      WrapAround(to);
    } else {
      NoWrap(mark, 1);
      NoWrap(to, mark);
      NoWrap(to - mark, 1);
    }
  }

  lemma HostStep(st: Statics, a: Chars, b: bool)
    requires st.step == USERINFO && |a| < NPOS && (st.mark == NPOS || st.mark < |a|)
    ensures var from := if st.mark == NPOS then 0 else st.mark + 1;
            var colon := Find(a, COLON_MARK, from);
            && (colon == NPOS || from <= colon < |a|)
            && Advance(st, a, b) == (Statics(HOST, st.mark, colon), Some(if colon == NPOS then a[from..] else a[from..colon]))
  {
    hide Find, Plus, Minus, Substr;
    var from := if st.mark == NPOS then 0 else st.mark + 1;
    var colon := Find(a, COLON_MARK, from);
    var to := if colon == NPOS then |a| else colon;
    HostMarks(st.mark, to);
    SubstrIs(a, from, to);
  }

  lemma PortStep(st: Statics, a: Chars, b: bool)
    requires st.step == HOST && |a| < NPOS && (st.mark2 == NPOS || st.mark2 < |a|)
    ensures Advance(st, a, b)
         == (Statics(PORT, st.mark, st.mark2), Some(if st.mark2 == NPOS then [] else a[st.mark2 + 1..]))
  {
  }

  lemma AuthoritySteps(st: Statics, s: Chars, got: seq<Chars>)
    requires |got| == 5 && st.step == FRAGMENT && |got[1]| < NPOS
    ensures Construct(st, s, got).Built? && Construct(st, s, got).st.step == PORT
    ensures Construct(st, s, got).fields == got + Fields(AuthorityParts(got[1]))
  {
    hide Find, Advance, Plus, Minus, Construct;
    var a := got[1];
    UserinfoStep(st, a, SchemeEmpty(got));
    var (st1, userinfo) := Advance(st, a, SchemeEmpty(got));
    var got1 := got + [userinfo.value];
    HostStep(st1, a, SchemeEmpty(got1));
    var (st2, host) := Advance(st1, a, SchemeEmpty(got1));
    var got2 := got1 + [host.value];
    PortStep(st2, a, SchemeEmpty(got2));
    var (st3, port) := Advance(st2, a, SchemeEmpty(got2));
    OneMore(st, s, got, st1, userinfo.value);
    OneMore(st1, s, got1, st2, host.value);
    OneMore(st2, s, got2, st3, port.value);
    var parts := Parts(userinfo.value, host.value, port.value);
    assert AuthorityParts(a) == parts;
    assert got2 + [port.value] == got + Fields(parts);
    Done(st3, s, got + Fields(parts));
  }

  function Optional(o: Option<Chars>): Chars {
    if o.Some? then o.value else []
  }

  /** RFC 3986, section 3.2: authority = [ userinfo "@" ] host [ ":" port ]. */
  function Authority(userinfo: Option<Chars>, host: Chars, port: Option<Chars>): Chars {
    (if userinfo.Some? then userinfo.value + AT_MARK else []) + host + if port.Some? then COLON_MARK + port.value else []
  }

  /** The authority is split as written if and only if the host holds no colon: an IP literal in brackets
      is cut at its first colon. */
  lemma AuthorityIff(userinfo: Option<Chars>, host: Chars, port: Option<Chars>)
    requires userinfo.Some? ==> AT_MARK[0] !in userinfo.value
    requires userinfo.None? ==> AT_MARK[0] !in Authority(None, host, port)
    requires |Authority(userinfo, host, port)| < NPOS
    ensures AuthorityParts(Authority(userinfo, host, port)) == Parts(Optional(userinfo), host, Optional(port))
            <==> COLON_MARK[0] !in host
  {
    hide Find, AuthorityParts;
    var a := Authority(userinfo, host, port);
    var tail := if port.Some? then COLON_MARK + port.value else [];
    assert a == (if userinfo.Some? then userinfo.value + AT_MARK else []) + (host + tail);
    var head := UserinfoFound(a, userinfo, host + tail);
    hide Authority;
    HostAndPort(a, head, userinfo, host, port);
  }

  lemma HostAndPort(a: Chars, head: Chars, userinfo: Option<Chars>, host: Chars, port: Option<Chars>)
    requires |a| < NPOS && a == head + (host + if port.Some? then COLON_MARK + port.value else [])
    requires userinfo.Some? ==> Find(a, AT_MARK, 0) == |userinfo.value| && |head| == |userinfo.value| + 1
                                && a[..|userinfo.value|] == userinfo.value
    requires userinfo.None? ==> Find(a, AT_MARK, 0) == NPOS && head == []
    ensures AuthorityParts(a) == Parts(Optional(userinfo), host, Optional(port)) <==> COLON_MARK[0] !in host
  {
    hide Find, AuthorityParts;
    PartsAre(a, head, userinfo, Find(a, COLON_MARK, |head|));
    if COLON_MARK[0] !in host {
      HostFound(a, head, host, port);
    } else {
      HostCut(a, head, host, if port.Some? then COLON_MARK + port.value else []);
      assert |AuthorityParts(a).host| < |host|;
    }
  }

  /** A host with a colon is cut at it. */
  lemma HostCut(a: Chars, head: Chars, host: Chars, tail: Chars)
    requires a == head + (host + tail) && COLON_MARK[0] in host
    ensures Find(a, COLON_MARK, |head|) < |head| + |host|
  {
    hide Find;
    var i :| 0 <= i < |host| && host[i] == COLON_MARK[0];
    assert a[|head| + i] == (host + tail)[i] == host[i];
    FirstColon(a, |head|, |head| + i);
  }

  lemma PartsAre(a: Chars, head: Chars, userinfo: Option<Chars>, colon: nat)
    requires |head| <= |a| < NPOS && Find(a, COLON_MARK, |head|) == colon && (colon == NPOS || |head| <= colon < |a|)
    requires userinfo.Some? ==> Find(a, AT_MARK, 0) == |userinfo.value| && |head| == |userinfo.value| + 1
                                && a[..|userinfo.value|] == userinfo.value
    requires userinfo.None? ==> Find(a, AT_MARK, 0) == NPOS && head == []
    ensures colon == NPOS ==> AuthorityParts(a) == Parts(Optional(userinfo), a[|head|..], [])
    ensures colon != NPOS ==> AuthorityParts(a) == Parts(Optional(userinfo), a[|head|..colon], a[colon + 1..])
  {
    hide Find;
  }

  lemma UserinfoFound(a: Chars, userinfo: Option<Chars>, rest: Chars) returns (head: Chars)
    requires userinfo.Some? ==> AT_MARK[0] !in userinfo.value && a == userinfo.value + AT_MARK + rest
    requires userinfo.None? ==> AT_MARK[0] !in a && a == rest
    ensures a == head + rest
    ensures userinfo.Some? ==> Find(a, AT_MARK, 0) == |userinfo.value| && |head| == |userinfo.value| + 1
                               && a[..|userinfo.value|] == userinfo.value
    ensures userinfo.None? ==> Find(a, AT_MARK, 0) == NPOS && head == []
  {
    hide Find;
    head := if userinfo.Some? then userinfo.value + AT_MARK else [];
    if userinfo.Some? {
      assert a == [] + userinfo.value + AT_MARK + rest;
      FindPast(a, [], userinfo.value, AT_MARK, rest);
    } else {
      assert a == [] + a;
      FindNonePast(a, [], a, AT_MARK);
    }
  }

  lemma HostFound(a: Chars, head: Chars, host: Chars, port: Option<Chars>)
    requires COLON_MARK[0] !in host && a == head + (host + if port.Some? then COLON_MARK + port.value else [])
    ensures port.Some? ==> Find(a, COLON_MARK, |head|) == |head| + |host| && a[|head|..|head| + |host|] == host
                           && a[|head| + |host| + 1..] == port.value
    ensures port.None? ==> Find(a, COLON_MARK, |head|) == NPOS && a[|head|..] == host
  {
    hide Find;
    if port.Some? {
      assert a == head + host + COLON_MARK + port.value;
      FindPast(a, head, host, COLON_MARK, port.value);
    } else {
      assert a == head + host;
      FindNonePast(a, head, host, COLON_MARK);
    }
  }

  /** A search does not pass over an occurrence. */
  lemma {:induction false} FirstColon(a: Chars, from: nat, i: nat)
    requires from <= i < |a| && a[i] == COLON_MARK[0]
    ensures Find(a, COLON_MARK, from) <= i
    decreases i - from
  {
    if from < i {
      FirstColon(a, from + 1, i);
    } else {
      assert a[from..from + 1] == COLON_MARK;
    }
  }

  // ----- Scheme, path, query, fragment

  lemma SchemeStep(st: Statics, s: Chars, scheme: Chars, rest: Chars)
    requires st.step == PORT && s == scheme + AFTER_SCHEME + rest && COLON_MARK[0] !in scheme && |s| < NPOS
    ensures Advance(st, s, true) == (Statics(SCHEME, |scheme|, st.mark2), Some(scheme))
  {
    hide Find;
    assert s == [] + scheme + AFTER_SCHEME + rest;
    FindPast(s, [], scheme, AFTER_SCHEME, rest);
    assert s == [] + scheme + (AFTER_SCHEME + rest);
    SubstrPast(s, [], scheme, AFTER_SCHEME + rest);
  }

  lemma AuthorityStep(st: Statics, s: Chars, scheme: Chars, authority: Chars, rest: Chars)
    requires st.step == SCHEME && st.mark == |scheme| && |s| < NPOS
    requires s == scheme + AFTER_SCHEME + authority + SLASH_MARK + rest && SLASH_MARK[0] !in authority
    ensures Advance(st, s, false)
         == (Statics(AUTHORITY, |scheme|, |scheme| + 3 + |authority|), Some(authority))
  {
    hide Find;
    var before := scheme + AFTER_SCHEME;
    hide Substr;
    FindPast(s, before, authority, SLASH_MARK, rest);
    assert s == before + authority + (SLASH_MARK + rest);
    SubstrPast(s, before, authority, SLASH_MARK + rest);
    assert Plus(st.mark, 3) == |before| && Minus(Minus(|before| + |authority|, st.mark), 3) == |authority|;
  }

  /** The path ends at the first question mark after it, wherever that is. */
  lemma PathStepQuery(st: Statics, s: Chars, before: Chars, path: Chars, rest: Chars)
    requires st.step == AUTHORITY && st.mark2 == |before| && |s| < NPOS
    requires s == before + path + QUESTION_MARK + rest && |path| > 0 && QUESTION_MARK[0] !in path
    ensures Advance(st, s, false) == (Statics(PATH, |before| + |path|, st.mark2), Some(path))
  {
    hide Find, Plus, Minus;
    var first := before + path[..1];
    assert s == first + path[1..] + QUESTION_MARK + rest;
    FindPast(s, first, path[1..], QUESTION_MARK, rest);
    assert s == before + path + (QUESTION_MARK + rest);
    SubstrPast(s, before, path, QUESTION_MARK + rest);
    NoWrap(|before|, 1);
    NoWrap(|before| + |path|, |before|);
  }

  lemma PathStepFragment(st: Statics, s: Chars, before: Chars, path: Chars, fragment: Chars)
    requires st.step == AUTHORITY && st.mark2 == |before| && |s| < NPOS && |path| > 0
    requires s == before + path + HASH_MARK + fragment && QUESTION_MARK[0] !in path && QUESTION_MARK[0] !in fragment
    requires HASH_MARK[0] !in before && HASH_MARK[0] !in path
    ensures Advance(st, s, false) == (Statics(PATH, |before| + |path|, st.mark2), Some(path))
  {
    hide Find, Plus, Minus;
    var first := before + path[..1];
    assert s == first + (path[1..] + HASH_MARK + fragment);
    FindNonePast(s, first, path[1..] + HASH_MARK + fragment, QUESTION_MARK);
    assert s == [] + (before + path) + HASH_MARK + fragment;
    FindPast(s, [], before + path, HASH_MARK, fragment);
    assert s == before + path + (HASH_MARK + fragment);
    SubstrPast(s, before, path, HASH_MARK + fragment);
    NoWrap(|before|, 1);
    NoWrap(|before| + |path|, |before|);
  }

  lemma PathStepAlone(st: Statics, s: Chars, before: Chars, path: Chars)
    requires st.step == AUTHORITY && st.mark2 == |before| && |s| < NPOS && |path| > 0
    requires s == before + path && QUESTION_MARK[0] !in path && HASH_MARK[0] !in before && HASH_MARK[0] !in path
    ensures Advance(st, s, false) == (Statics(PATH, |s| - 1, st.mark2), Some(path))
  {
    hide Find;
    var first := before + path[..1];
    assert s == first + path[1..];
    FindNonePast(s, first, path[1..], QUESTION_MARK);
    assert s == [] + s;
    FindNonePast(s, [], s, HASH_MARK);
    assert s == before + path + [];
    SubstrPast(s, before, path, []);
  }

  /** A question mark in the fragment lengthens the path. */
  lemma PathStepTooLong(st: Statics, s: Chars, before: Chars, path: Chars, fragment: Chars)
    requires st.step == AUTHORITY && st.mark2 == |before| && |s| < NPOS && |path| > 0
    requires s == before + path + HASH_MARK + fragment && QUESTION_MARK[0] !in path && QUESTION_MARK[0] in fragment
    ensures var (next, view) := Advance(st, s, false);
            view.Some? && |view.value| > |path| && next.step == PATH && next.mark < |s|
  {
    hide Find, Substr, Plus, Minus;
    var i :| 0 <= i < |fragment| && fragment[i] == QUESTION_MARK[0];
    var j := FirstIndex(fragment, QUESTION_MARK[0], i);
    var long := path + HASH_MARK + fragment[..j];
    var rest := fragment[j + 1..];
    assert fragment == fragment[..j] + QUESTION_MARK + rest;
    assert s == before + long + QUESTION_MARK + rest;
    PathStepQuery(st, s, before, long, rest);
  }

  lemma {:induction false} FirstIndex(s: Chars, c: schar, i: nat) returns (j: nat)
    requires i < |s| && s[i] == c
    ensures j <= i && s[j] == c && c !in s[..j]
  {
    if c in s[..i] {
      var k :| 0 <= k < i && s[k] == c;
      j := FirstIndex(s, c, k);
    } else {
      j := i;
    }
  }

  lemma QueryStep(st: Statics, s: Chars, before: Chars, query: Chars, fragment: Chars)
    requires st.step == PATH && Plus(st.mark, 1) == |before| && st.mark < NPOS && |s| < NPOS
    requires s == before + query + HASH_MARK + fragment && HASH_MARK[0] !in query
    ensures Advance(st, s, false) == (Statics(QUERY, st.mark, |before| + |query|), Some(query))
  {
    hide Find, Plus, Minus;
    FindPast(s, before, query, HASH_MARK, fragment);
    assert s == before + query + (HASH_MARK + fragment);
    SubstrPast(s, before, query, HASH_MARK + fragment);
    NoWrap(st.mark, 1);
    NoWrap(|before| + |query|, st.mark);
    NoWrap(|query| + 1, 1);
  }

  lemma QueryStepLast(st: Statics, s: Chars, before: Chars, query: Chars)
    requires st.step == PATH && Plus(st.mark, 1) == |before| && |s| < NPOS && |s| > 0
    requires s == before + query && HASH_MARK[0] !in query
    ensures Advance(st, s, false) == (Statics(QUERY, st.mark, |s| - 1), Some(query))
  {
    hide Find;
    FindNonePast(s, before, query, HASH_MARK);
    assert s == before + query + [];
    SubstrPast(s, before, query, []);
  }

  lemma FragmentStep(st: Statics, s: Chars, before: Chars, fragment: Chars)
    requires st.step == QUERY && Plus(st.mark2, 1) == |before| && |s| < NPOS && s == before + fragment
    ensures Advance(st, s, false) == (Statics(FRAGMENT, st.mark, st.mark2), Some(fragment))
  {
    assert s == before + fragment + [];
    SubstrPast(s, before, fragment, []);
  }

  /** From the query on, no string makes the program throw; the fragment is what follows the mark. */
  lemma QueryThenFragment(st: Statics, s: Chars, b: bool, c: bool)
    requires st.step == PATH && st.mark < |s| < NPOS
    ensures var (st4, query) := Advance(st, s, b);
            var (st5, fragment) := Advance(st4, s, c);
            && query.Some? && fragment.Some? && st4.step == QUERY && st5.step == FRAGMENT
            && |fragment.value| <= |s| - (st.mark + 1)
            && (st.mark + 1 < |s| ==> |fragment.value| < |s| - (st.mark + 1))
  {
    hide Find;
    assert Plus(st.mark, 1) == st.mark + 1;
  }

  // ----- Constructions

  /** The components of RFC 3986, section 3, without the rules for their characters. */
  datatype Uri = Uri(scheme: Chars, authority: Chars, path: Chars, query: Option<Chars>, fragment: Option<Chars>)

  /** RFC 3986, section 5.3. */
  function Recompose(u: Uri): Chars {
    u.scheme + AFTER_SCHEME + u.authority + u.path + Tail(u)
  }

  function Tail(u: Uri): Chars {
    (if u.query.Some? then QUESTION_MARK + u.query.value else [])
    + if u.fragment.Some? then HASH_MARK + u.fragment.value else []
  }

  /** No component holds the delimiter that ends it. */
  predicate Delimited(u: Uri) {
    && u.scheme != [] && COLON_MARK[0] !in u.scheme
    && SLASH_MARK[0] !in u.authority
    && u.path != [] && u.path[0] == SLASH_MARK[0] && QUESTION_MARK[0] !in u.path
    && (u.query.Some? ==> HASH_MARK[0] !in u.query.value)
    && (u.query.None? ==> HASH_MARK[0] !in u.scheme && HASH_MARK[0] !in u.authority && HASH_MARK[0] !in u.path)
  }

  /** Advance to the path of a string that has all of scheme, authority and path. */
  lemma Prefix(st: Statics, u: Uri)
    requires st.step == PORT && Delimited(u) && |Recompose(u)| < NPOS
    ensures var m := |u.scheme| + 3 + |u.authority|;
            Construct(st, Recompose(u), [])
            == Construct(Statics(AUTHORITY, |u.scheme|, m), Recompose(u), [u.scheme, u.authority])
  {
    hide Advance, Construct;
    var s := Recompose(u);
    var rest := u.path[1..] + Tail(u);
    assert u.path == SLASH_MARK + u.path[1..];
    assert s == u.scheme + AFTER_SCHEME + (u.authority + u.path + Tail(u));
    SchemeStep(st, s, u.scheme, u.authority + u.path + Tail(u));
    assert s == u.scheme + AFTER_SCHEME + u.authority + SLASH_MARK + rest;
    var st1 := Statics(SCHEME, |u.scheme|, st.mark2);
    AuthorityStep(st1, s, u.scheme, u.authority, rest);
    OneMore(st, s, [], st1, u.scheme);
    assert [] + [u.scheme] == [u.scheme];
    OneMore(st1, s, [u.scheme], Statics(AUTHORITY, |u.scheme|, |u.scheme| + 3 + |u.authority|), u.authority);
    assert [u.scheme] + [u.authority] == [u.scheme, u.authority];
  }

  /** Where the path ends, and the mark it leaves, when the string is split as written. */
  lemma PathAsWritten(u: Uri)
    requires Delimited(u) && |Recompose(u)| < NPOS
    requires u.query.None? && u.fragment.Some? ==> QUESTION_MARK[0] !in u.fragment.value
    ensures var s, m := Recompose(u), |u.scheme| + 3 + |u.authority|;
            var end := if u.query.None? && u.fragment.None? then |s| - 1 else m + |u.path|;
            Advance(Statics(AUTHORITY, |u.scheme|, m), s, false) == (Statics(PATH, end, m), Some(u.path))
  {
    hide Advance;
    var s := Recompose(u);
    var before := u.scheme + AFTER_SCHEME + u.authority;
    var st := Statics(AUTHORITY, |u.scheme|, |before|);
    if u.query.Some? {
      var rest := u.query.value + if u.fragment.Some? then HASH_MARK + u.fragment.value else [];
      assert s == before + u.path + QUESTION_MARK + rest;
      PathStepQuery(st, s, before, u.path, rest);
    } else if u.fragment.Some? {
      assert s == before + u.path + HASH_MARK + u.fragment.value;
      PathStepFragment(st, s, before, u.path, u.fragment.value);
    } else {
      assert s == before + u.path;
      PathStepAlone(st, s, before, u.path);
    }
  }

  function Components(u: Uri): seq<Chars> {
    [u.scheme, u.authority, u.path, Optional(u.query), Optional(u.fragment)]
  }

  /** The two steps after the path of a string with a query, or with an empty tail. */
  lemma TailAsWritten(st: Statics, s: Chars, before: Chars, query: Option<Chars>, fragment: Option<Chars>, b: bool)
    requires query.Some? ==> HASH_MARK[0] !in query.value
    requires query.Some? || fragment.None? || fragment.value == []
    requires st.step == PATH && st.mark < NPOS && st.mark + 1 == |before| && |s| < NPOS
    requires query.Some? ==> s == before + query.value + if fragment.Some? then HASH_MARK + fragment.value else []
    requires query.None? ==> s == before
    ensures var (st4, q) := Advance(st, s, b);
            var (st5, f) := Advance(st4, s, b);
            && q == Some(Optional(query)) && f == Some(Optional(fragment)) && st5.step == FRAGMENT
  {
    hide Advance, Find, Substr, Minus;
    SchemeNotAsked(st, s, b);
    SchemeNotAsked(Advance(st, s, b).0, s, b);
    if query.Some? && fragment.Some? {
      assert s == before + query.value + HASH_MARK + fragment.value;
      QueryStep(st, s, before, query.value, fragment.value);
      var st4 := Statics(QUERY, st.mark, |before| + |query.value|);
      assert s == (before + query.value + HASH_MARK) + fragment.value;
      FragmentStep(st4, s, before + query.value + HASH_MARK, fragment.value);
    } else {
      assert s == before + Optional(query);
      QueryStepLast(st, s, before, Optional(query));
      assert s == s + [];
      FragmentStep(Statics(QUERY, st.mark, |s| - 1), s, s, []);
    }
  }

  /** Whether there is a scheme does not matter behind the path. */
  lemma SchemeNotAsked(st: Statics, s: Chars, b: bool)
    requires st.step == PATH || st.step == QUERY
    ensures Advance(st, s, b) == Advance(st, s, false)
    ensures Advance(st, s, b).0.step == NextStep(st.step)
  {
    hide Find, Substr, Plus, Minus;
  }

  /** The first three fields are in place; two more steps and the authority complete the construction. */
  lemma Finish(st: Statics, s: Chars, got: seq<Chars>)
    requires |got| == 3 && |got[1]| < NPOS && st.step == PATH && st.mark < |s| < NPOS
    ensures var b := SchemeEmpty(got);
            var (st4, query) := Advance(st, s, b);
            var (st5, fragment) := Advance(st4, s, b);
            var r := Construct(st, s, got);
            && query.Some? && fragment.Some? && r.Built? && r.st.step == PORT
            && r.fields == got + [query.value, fragment.value] + Fields(AuthorityParts(got[1]))
  {
    hide Advance, Construct, AuthorityParts;
    var b := SchemeEmpty(got);
    QueryThenFragment(st, s, b, b);
    var (st4, query) := Advance(st, s, b);
    var (st5, fragment) := Advance(st4, s, b);
    OneMore(st, s, got, st4, query.value);
    OneMore(st4, s, got + [query.value], st5, fragment.value);
    assert got + [query.value] + [fragment.value] == got + [query.value, fragment.value];
    AuthoritySteps(st5, s, got + [query.value, fragment.value]);
  }

  /** A URI written out of its components is split into them if and only if it has a query or has no
      fragment: without a query the program looks for the fragment behind a second '#'. In both cases the
      construction completes. */
  lemma ComponentsIff(st: Statics, u: Uri)
    requires st.step == PORT && Delimited(u) && |Recompose(u)| < NPOS
    ensures var r := Construct(st, Recompose(u), []);
            && r.Built? && r.st.step == PORT && |r.fields| == 8
            && r.fields[..2] == [u.scheme, u.authority] && r.fields[5..] == Fields(AuthorityParts(u.authority))
            && (r.fields[..5] == Components(u)
                <==> u.query.Some? || u.fragment.None? || u.fragment.value == [])
  {
    hide Advance, Construct, AuthorityParts;
    var s := Recompose(u);
    var m := |u.scheme| + 3 + |u.authority|;
    var before := u.scheme + AFTER_SCHEME + u.authority;
    var st2 := Statics(AUTHORITY, |u.scheme|, m);
    Prefix(st, u);
    if u.query.None? && u.fragment.Some? && QUESTION_MARK[0] in u.fragment.value {
      assert s == before + u.path + HASH_MARK + u.fragment.value;
      PathStepTooLong(st2, s, before, u.path, u.fragment.value);
    } else {
      PathAsWritten(u);
    }
    var (st3, path) := Advance(st2, s, false);
    var got := [u.scheme, u.authority] + [path.value];
    OneMore(st2, s, [u.scheme, u.authority], st3, path.value);
    Finish(st3, s, got);
    var (st4, query) := Advance(st3, s, false);
    var (st5, fragment) := Advance(st4, s, false);
    var fields := Construct(st, s, []).fields;
    assert fields[..5] == got + [query.value, fragment.value];
    if u.query.Some? {
      assert s == before + u.path + QUESTION_MARK + u.query.value
               + if u.fragment.Some? then HASH_MARK + u.fragment.value else [];
      TailAsWritten(st3, s, before + u.path + QUESTION_MARK, u.query, u.fragment, false);
    } else if u.fragment.None? || u.fragment.value == [] {
      TailAsWritten(st3, s, s, u.query, u.fragment, false);
    } else if QUESTION_MARK[0] !in u.fragment.value {
      QueryThenFragment(st3, s, false, false);
      assert fields[..5][4] != Components(u)[4];
    } else {
      assert fields[..5][2] != Components(u)[2];
    }
  }

  /** s://u@h:1/p?q#f, with all eight components. */
  const EXAMPLE := Uri([115], [117, 64, 104, 58, 49], [47, 112], Some([113]), Some([102]))

  lemma ExampleIsSplit(st: Statics)
    requires st.step == PORT
    ensures var r := Construct(st, Codes("s://u@h:1/p?q#f"), []);
            r.Built? && r.fields == [Codes("s"), Codes("u@h:1"), Codes("/p"), Codes("q"), Codes("f"),
                                     Codes("u"), Codes("h"), Codes("1")]
  {
    hide Construct, AuthorityParts, Delimited;
    ExampleIsSpelled();
    ComponentsIff(st, EXAMPLE);
    assert Authority(Some([117]), [104], Some([49])) == EXAMPLE.authority;
    AuthorityIff(Some([117]), [104], Some([49]));
    ExampleComponents();
    var fields := Construct(st, Recompose(EXAMPLE), []).fields;
    assert fields == fields[..5] + fields[5..];
  }

  lemma ExampleComponents()
    ensures Components(EXAMPLE) + Fields(Parts([117], [104], [49]))
         == [Codes("s"), Codes("u@h:1"), Codes("/p"), Codes("q"), Codes("f"), Codes("u"), Codes("h"), Codes("1")]
  {
    assert [115] == Codes("s") && [117, 64, 104, 58, 49] == Codes("u@h:1") && [47, 112] == Codes("/p");
    assert [113] == Codes("q") && [102] == Codes("f");
    assert [117] == Codes("u") && [104] == Codes("h") && [49] == Codes("1");
  }

  lemma ExampleIsSpelled()
    ensures Recompose(EXAMPLE) == Codes("s://u@h:1/p?q#f") && Delimited(EXAMPLE)
  {
  }

  // ----- References without a scheme

  /** The text of a reference without scheme and authority: what precedes the first slash of its path, the rest of
      the path, query and fragment. */
  function Reference(head: Chars, u: Uri): Chars {
    head + u.path + Tail(u)
  }

  /** No component holds the delimiter that ends it, and there is no scheme to be found. */
  predicate IsReference(head: Chars, u: Uri) {
    && u.scheme == [] && u.authority == []
    && SLASH_MARK[0] !in head && QUESTION_MARK[0] !in head
    && u.path != [] && u.path[0] == SLASH_MARK[0] && QUESTION_MARK[0] !in u.path
    && (u.query.Some? ==> HASH_MARK[0] !in u.query.value)
    && (u.query.None? ==> HASH_MARK[0] !in head && HASH_MARK[0] !in u.path)
    && Find(Reference(head, u), AFTER_SCHEME, 0) == NPOS
  }

  /** The first two steps find nothing; the second leaves its mark at the first slash. */
  lemma NoSchemeNoAuthority(st: Statics, s: Chars, head: Chars, rest: Chars)
    requires st.step == PORT && s == head + SLASH_MARK + rest && SLASH_MARK[0] !in head && |s| < NPOS
    requires Find(s, AFTER_SCHEME, 0) == NPOS
    ensures Construct(st, s, []) == Construct(Statics(AUTHORITY, NPOS, |head|), s, [[], []])
  {
    hide Find, Substr, Construct, Plus, Minus;
    assert s == [] + head + SLASH_MARK + rest;
    FindPast(s, [], head, SLASH_MARK, rest);
    var st1 := Statics(SCHEME, NPOS, st.mark2);
    OneMore(st, s, [], st1, []);
    OneMore(st1, s, [] + [[]], Statics(AUTHORITY, NPOS, |head|), []);
    var empty: Chars := [];
    assert [] + [empty] + [empty] == [empty, empty];
  }

  /** The path step without a scheme, in terms of the first question mark or number sign of the text. */
  lemma PathFrom(st: Statics, s: Chars, head: Chars, path: Chars, rest: Chars)
    requires st.step == AUTHORITY && st.mark2 == |head| && s == head + path + rest && |path| > 0 && |s| < NPOS
    requires var q, h := Find(s, QUESTION_MARK, 0), Find(s, HASH_MARK, 0);
             var end := if q != NPOS then q else h;
             if end == NPOS then rest == [] else end == |head| + |path|
    ensures Advance(st, s, true)
         == (Statics(PATH, if rest == [] && Find(s, QUESTION_MARK, 0) == NPOS && Find(s, HASH_MARK, 0) == NPOS
                           then |s| - 1 else |head| + |path|, |head|), Some(path))
  {
    hide Find, Substr, Plus, Minus;
    SubstrPast(s, head, path, rest);
    assert path + [] == path;
    NoWrap(|head| + |path|, |head|);
    NoWrap(|s|, 1);
  }

  /** A reference without scheme and authority always completes, with nothing for these two and for what is cut
      from the authority; path, query and fragment are as written, but for what precedes the first slash, if and
      only if there is a query or no fragment. */
  lemma ReferenceIff(st: Statics, head: Chars, u: Uri)
    requires st.step == PORT && IsReference(head, u) && |Reference(head, u)| < NPOS
    ensures var r := Construct(st, Reference(head, u), []);
            && r.Built? && r.st.step == PORT && |r.fields| == 8
            && r.fields[..2] == [[], []] && r.fields[5..] == [[], [], []]
            && (r.fields[2..5] == [u.path, Optional(u.query), Optional(u.fragment)]
                <==> u.query.Some? || u.fragment.None? || u.fragment.value == [])
  {
    hide Advance, Construct, AuthorityParts, Find;
    var s := Reference(head, u);
    assert u.path == SLASH_MARK + u.path[1..];
    assert s == head + SLASH_MARK + (u.path[1..] + Tail(u));
    NoSchemeNoAuthority(st, s, head, u.path[1..] + Tail(u));
    var st2 := Statics(AUTHORITY, NPOS, |head|);
    ReferencePath(st2, head, u);
    var (st3, path) := Advance(st2, s, true);
    var got := [[], []] + [path.value];
    OneMore(st2, s, [[], []], st3, path.value);
    Finish(st3, s, got);
    NoAuthorityParts();
    var (st4, query) := Advance(st3, s, true);
    var (st5, fragment) := Advance(st4, s, true);
    var fields := Construct(st, s, []).fields;
    assert fields[2..5] == [path.value, query.value, fragment.value];
    var before := head + u.path;
    if u.query.Some? {
      assert s == before + QUESTION_MARK + u.query.value
               + if u.fragment.Some? then HASH_MARK + u.fragment.value else [];
      TailAsWritten(st3, s, before + QUESTION_MARK, u.query, u.fragment, true);
    } else if u.fragment.None? || u.fragment.value == [] {
      TailAsWritten(st3, s, s, u.query, u.fragment, true);
    } else if QUESTION_MARK[0] !in u.fragment.value {
      QueryThenFragment(st3, s, true, true);
    }
  }

  lemma NoAuthorityParts()
    ensures Fields(AuthorityParts([])) == [[], [], []]
  {
  }

  /** Where the path ends; a question mark in the fragment lengthens it. */
  lemma ReferencePath(st: Statics, head: Chars, u: Uri)
    requires st == Statics(AUTHORITY, NPOS, |head|) && IsReference(head, u) && |Reference(head, u)| < NPOS
    ensures var s := Reference(head, u);
            var (next, path) := Advance(st, s, true);
            && path.Some? && next.step == PATH && next.mark < |s|
            && if u.query.None? && u.fragment.Some? && QUESTION_MARK[0] in u.fragment.value then |path.value| > |u.path|
               else path.value == u.path
                    && next.mark == if u.query.None? && u.fragment.None? then |s| - 1 else |head| + |u.path|
  {
    hide Advance, Find;
    var s, before := Reference(head, u), head + u.path;
    if u.query.Some? {
      var rest := u.query.value + if u.fragment.Some? then HASH_MARK + u.fragment.value else [];
      assert s == [] + before + QUESTION_MARK + rest;
      FindPast(s, [], before, QUESTION_MARK, rest);
      PathFrom(st, s, head, u.path, QUESTION_MARK + rest);
    } else if u.fragment.None? {
      assert s == [] + before == before + [];
      FindNonePast(s, [], before, QUESTION_MARK);
      FindNonePast(s, [], before, HASH_MARK);
      PathFrom(st, s, head, u.path, []);
    } else if QUESTION_MARK[0] !in u.fragment.value {
      var rest := HASH_MARK + u.fragment.value;
      assert s == [] + (before + rest);
      FindNonePast(s, [], before + rest, QUESTION_MARK);
      assert s == [] + before + HASH_MARK + u.fragment.value;
      FindPast(s, [], before, HASH_MARK, u.fragment.value);
      PathFrom(st, s, head, u.path, rest);
    } else {
      ReferenceTooLong(st, s, head, u.path, u.fragment.value);
    }
  }

  lemma ReferenceTooLong(st: Statics, s: Chars, head: Chars, path: Chars, fragment: Chars)
    requires st == Statics(AUTHORITY, NPOS, |head|) && s == head + path + HASH_MARK + fragment && |s| < NPOS
    requires |path| > 0 && QUESTION_MARK[0] !in head && QUESTION_MARK[0] !in path && QUESTION_MARK[0] in fragment
    ensures var (next, view) := Advance(st, s, true);
            view.Some? && |view.value| > |path| && next.step == PATH && next.mark < |s|
  {
    hide Advance, Find;
    var i :| 0 <= i < |fragment| && fragment[i] == QUESTION_MARK[0];
    var j := FirstIndex(fragment, QUESTION_MARK[0], i);
    var long, rest := path + HASH_MARK + fragment[..j], fragment[j + 1..];
    assert fragment == fragment[..j] + QUESTION_MARK + rest;
    assert s == [] + (head + long) + QUESTION_MARK + rest;
    FindPast(s, [], head + long, QUESTION_MARK, rest);
    assert s == head + long + (QUESTION_MARK + rest);
    PathFrom(st, s, head, long, QUESTION_MARK + rest);
  }

  // ----- Static state between constructions

  /** Scheme, authority and path steps on any string: the marks they leave are inside it, and none comes
      from the construction before. */
  lemma FirstSteps(st: Statics, s: Chars)
    requires st.step == PORT && 0 < |s| < NPOS
    ensures var (st1, scheme) := Advance(st, s, true);
            var (st2, authority) := Advance(st1, s, scheme == Some([]));
            var (st3, path) := Advance(st2, s, scheme == Some([]));
            && scheme.Some? && authority.Some? && path.Some? && |authority.value| <= |s|
            && st1.step == SCHEME && st2.step == AUTHORITY && st3.step == PATH && st3.mark < |s|
            && st1.mark == Find(s, AFTER_SCHEME, 0)
  {
    hide Find;
    var (st1, scheme) := Advance(st, s, true);
    var b := scheme == Some([]);
    SecondStep(st1, s, b);
    var (st2, authority) := Advance(st1, s, b);
    ThirdStep(st2, s, b);
  }

  lemma SecondStep(st: Statics, s: Chars, b: bool)
    requires st.step == SCHEME && 0 < |s| < NPOS && (!b ==> st.mark + 3 <= |s|)
    ensures var (next, v) := Advance(st, s, b);
            && v.Some? && next.step == AUTHORITY && next.mark2 < |s| && |v.value| <= |s|
            && next.mark == st.mark && forall m2 :: Advance(st.(mark2 := m2), s, b) == (next, v)
  {
    hide Find;
    var from := if b then 0 else Plus(st.mark, 3);
    assert !b ==> from == st.mark + 3;
  }

  lemma ThirdStep(st: Statics, s: Chars, b: bool)
    requires st.step == AUTHORITY && st.mark2 < |s| < NPOS
    ensures var (next, v) := Advance(st, s, b);
            v.Some? && next.step == PATH && next.mark < |s|
  {
    hide Find;
  }

  lemma SameFirstSteps(st: Statics, other: Statics, s: Chars)
    requires st.step == PORT && other.step == PORT && 0 < |s| < NPOS
    ensures Construct(st, s, []) == Construct(other, s, [])
    ensures Construct(st, s, []).Built? && Construct(st, s, []).st.step == PORT
  {
    hide Advance, Construct, AuthorityParts;
    FirstSteps(st, s);
    var st1, v1 := Scheme(st, s);
    var (st2, v2) := Advance(st1, s, v1 == []);
    var (st3, v3) := Advance(st2, s, v1 == []);
    var o1, _ := Scheme(other, s);
    SecondStep(st1, s, v1 == []);
    assert Advance(st1.(mark2 := o1.mark2), s, v1 == []) == (st2, v2);
    OneMore(st, s, [], st1, v1);
    OneMore(other, s, [], o1, v1);
    OneMore(st1, s, [] + [v1], st2, v2.value);
    OneMore(o1, s, [] + [v1], st2, v2.value);
    OneMore(st2, s, [] + [v1] + [v2.value], st3, v3.value);
    Finish(st3, s, [] + [v1] + [v2.value] + [v3.value]);
  }

  /** The scheme step depends on the string alone, up to the mark it does not write. */
  lemma Scheme(st: Statics, s: Chars) returns (next: Statics, v: Chars)
    requires st.step == PORT && 0 < |s| < NPOS
    ensures Advance(st, s, true) == (next, Some(v))
    ensures next == Statics(SCHEME, Find(s, AFTER_SCHEME, 0), st.mark2)
    ensures var i := Find(s, AFTER_SCHEME, 0); i == NPOS || i <= |s|
    ensures var i := Find(s, AFTER_SCHEME, 0); v == if i == NPOS then [] else s[..i]
    ensures v != [] ==> next.mark + 3 <= |s|
  {
    hide Find;
    next, v := Advance(st, s, true).0, Advance(st, s, true).1.value;
  }

  /** The statics after a history of constructions. */
  function After(st: Statics, history: seq<Chars>): Statics
    decreases |history|
  {
    if |history| == 0 then st else After(Construct(st, history[0], []).st, history[1..])
  }

  /** Constructions do not influence each other as long as no URI is empty: none throws, and each gives what
      it would give first in the process. */
  lemma {:induction false} IndependentOfHistory(st: Statics, history: seq<Chars>, s: Chars)
    requires st.step == PORT && 0 < |s| < NPOS
    requires forall i :: 0 <= i < |history| ==> 0 < |history[i]| < NPOS
    ensures Construct(After(st, history), s, []).Built?
    ensures Construct(After(st, history), s, []) == Construct(Statics(PORT, 0, 0), s, [])
    decreases |history|
  {
    hide Construct;
    if |history| == 0 {
      SameFirstSteps(st, Statics(PORT, 0, 0), s);
    } else {
      SameFirstSteps(st, st, history[0]);
      IndependentOfHistory(Construct(st, history[0], []).st, history[1..], s);
    }
  }

  /** An empty URI throws in the middle of its construction, and whatever URI comes next is cut at the wrong
      places: its scheme is not found. */
  lemma EmptyUriBreaksTheNext(st: Statics, u: Uri)
    requires st.step == PORT && Delimited(u) && |Recompose(u)| < NPOS
    ensures Construct(st, [], []).Threw?
    ensures var r := Construct(Construct(st, [], []).st, Recompose(u), []);
            r.Built? ==> |r.fields| == 8 && r.fields[0] != u.scheme
  {
    hide Find, Construct;
    EmptyUriThrows(st);
    var s := Recompose(u);
    var st1 := Statics(PATH, NPOS, NPOS);
    var hash := Find(s, HASH_MARK, 0);
    var (next, v) := Advance(st1, s, true);
    WrapAround(if hash == NPOS then 0 else hash);
    assert v == Some(if hash == NPOS then s else s[..hash]);
    OneMore(st1, s, [], next, v.value);
    FieldsKeep(next, s, [] + [v.value]);
    assert s[|u.scheme|] == COLON_MARK[0] by {
      assert u.scheme + AFTER_SCHEME + u.authority + u.path + Tail(u)
          == u.scheme + (AFTER_SCHEME + u.authority + u.path + Tail(u));
    }
    if hash != NPOS {
      FindHolds(s, HASH_MARK, 0);
      assert s[hash] == s[hash..hash + 1][0] == HASH_MARK[0];
    }
  }

  lemma EmptyUriThrows(st: Statics)
    requires st.step == PORT
    ensures Construct(st, [], []) == Threw(Statics(PATH, NPOS, NPOS))
  {
    hide Construct;
    var st1 := Statics(SCHEME, NPOS, st.mark2);
    assert Advance(st, [], true) == (st1, Some([]));
    var st2 := Statics(AUTHORITY, NPOS, NPOS);
    assert Advance(st1, [], true) == (st2, Some([]));
    assert Advance(st2, [], true) == (Statics(PATH, NPOS, NPOS), None);
    OneMore(st, [], [], st1, []);
    OneMore(st1, [], [] + [[]], st2, []);
    ThrowsHere(st2, [], [] + [[]] + [[]]);
  }

  lemma ThrowsHere(st: Statics, s: Chars, got: seq<Chars>)
    requires |got| < 8 && Advance(st, Input(s, got), SchemeEmpty(got)).1.None?
    ensures Construct(st, s, got) == Threw(Advance(st, Input(s, got), SchemeEmpty(got)).0)
  {
    hide Advance;
  }

  lemma {:induction false} FindHolds(s: Chars, pattern: Chars, from: nat)
    requires |pattern| > 0 && Find(s, pattern, from) != NPOS
    ensures var i := Find(s, pattern, from); from <= i && i + |pattern| <= |s| && s[i..i + |pattern|] == pattern
    decreases |s| - from
  {
    if s[from..from + |pattern|] != pattern {
      FindHolds(s, pattern, from + 1);
    }
  }
}
