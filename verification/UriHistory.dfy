/** Which constructions of URIs influence later ones through the static variables. */
module UriHistory {
  import Bytes
  import opened Options
  import opened Text
  import opened UriParts

  /** The statics an empty URI leaves. */
  const SHIFTED := Statics(PATH, NPOS, NPOS)

  const FIRST := Statics(PORT, 0, 0)

  /** What the caller of a construction sees: the fields, or that it threw. */
  function Visible(o: Outcome): Option<seq<Chars>> {
    if o.Built? then Some(o.fields) else None
  }

  // ----- After an empty URI

  lemma EmptyUriThrowsAgain()
    ensures Construct(SHIFTED, [], []) == Threw(SHIFTED)
  {
    hide Construct;
    var none: seq<Chars> := [[], [], [], [], [], [], [], []];
    EmptySteps();
    var s1, s2 := Statics(QUERY, NPOS, NPOS), Statics(FRAGMENT, NPOS, NPOS);
    var s3, s4, s5 := Statics(USERINFO, NPOS, NPOS), Statics(HOST, NPOS, NPOS), Statics(PORT, NPOS, NPOS);
    var s6, s7 := Statics(SCHEME, NPOS, NPOS), Statics(AUTHORITY, NPOS, NPOS);
    OneMore(SHIFTED, [], none[..0], s1, []);
    assert none[..0] + [[]] == none[..1];
    OneMore(s1, [], none[..1], s2, []);
    assert none[..1] + [[]] == none[..2];
    OneMore(s2, [], none[..2], s3, []);
    assert none[..2] + [[]] == none[..3];
    OneMore(s3, [], none[..3], s4, []);
    assert none[..3] + [[]] == none[..4];
    OneMore(s4, [], none[..4], s5, []);
    assert none[..4] + [[]] == none[..5];
    OneMore(s5, [], none[..5], s6, []);
    assert none[..5] + [[]] == none[..6];
    OneMore(s6, [], none[..6], s7, []);
    assert none[..6] + [[]] == none[..7];
    ThrowsHere(s7, [], none[..7]);
  }

  lemma EmptySteps()
    ensures Advance(SHIFTED, [], true) == (Statics(QUERY, NPOS, NPOS), Some([]))
    ensures Advance(Statics(QUERY, NPOS, NPOS), [], true) == (Statics(FRAGMENT, NPOS, NPOS), Some([]))
    ensures Advance(Statics(FRAGMENT, NPOS, NPOS), [], true) == (Statics(USERINFO, NPOS, NPOS), Some([]))
    ensures Advance(Statics(USERINFO, NPOS, NPOS), [], true) == (Statics(HOST, NPOS, NPOS), Some([]))
    ensures Advance(Statics(HOST, NPOS, NPOS), [], true) == (Statics(PORT, NPOS, NPOS), Some([]))
    ensures Advance(Statics(PORT, NPOS, NPOS), [], true) == (Statics(SCHEME, NPOS, NPOS), Some([]))
    ensures Advance(Statics(SCHEME, NPOS, NPOS), [], true) == (Statics(AUTHORITY, NPOS, NPOS), Some([]))
    ensures Advance(Statics(AUTHORITY, NPOS, NPOS), [], true) == (SHIFTED, None)
  {
  }

  // ----- The first fields of a construction that is not shifted, and of one that is

  /** Scheme and authority of a first construction. */
  lemma FirstFields(s: Chars)
    requires 0 < |s| < NPOS
    ensures var r := Construct(FIRST, s, []);
            var i := Find(s, AFTER_SCHEME, 0);
            && r.Built? && |r.fields| == 8 && (i == NPOS || i <= |s|)
            && r.fields[0] == (if i == NPOS then [] else s[..i])
            && (r.fields[0] == [] ==> r.fields[1] == [])
  {
    hide Advance, Construct, Find;
    SameFirstSteps(FIRST, FIRST, s);
    var st1, v1 := Scheme(FIRST, s);
    OneMore(FIRST, s, [], st1, v1);
    FieldsKeep(st1, s, [] + [v1]);
    FirstSteps(FIRST, s);
    var (st2, v2) := Advance(st1, s, v1 == []);
    OneMore(st1, s, [] + [v1], st2, v2.value);
    FieldsKeep(st2, s, [] + [v1] + [v2.value]);
    NoAuthority(st1, s);
  }

  lemma NoAuthority(st: Statics, s: Chars)
    requires st.step == SCHEME
    ensures Advance(st, s, true).1 == Some([])
  {
  }

  /** Query and fragment come first in a shifted construction. */
  lemma ShiftedFields(s: Chars)
    requires 0 < |s| < NPOS
    ensures var r := Construct(SHIFTED, s, []);
            var hash := Find(s, HASH_MARK, 0);
            r.Built? ==>
              && |r.fields| == 8 && (hash == NPOS || hash < |s|)
              && r.fields[0] == (if hash == NPOS then s else s[..hash])
              && (hash != NPOS ==> r.fields[1] == s[hash + 1..])
  {
    hide Construct, Find;
    var hash := Find(s, HASH_MARK, 0);
    var (st1, v1) := Advance(SHIFTED, s, true);
    WrapAround(if hash == NPOS then 0 else hash);
    assert v1 == Some(if hash == NPOS then s else s[..hash]);
    OneMore(SHIFTED, s, [], st1, v1.value);
    FieldsKeep(st1, s, [] + [v1.value]);
    if hash != NPOS {
      var b := SchemeEmpty([] + [v1.value]);
      NoWrap(hash, 1);
      var (st2, v2) := Advance(st1, s, b);
      SubstrIs(s, hash + 1, |s|);
      assert v2 == Some(s[hash + 1..]);
      OneMore(st1, s, [] + [v1.value], st2, v2.value);
      FieldsKeep(st2, s, [] + [v1.value] + [v2.value]);
    }
  }

  /** The shortest string the first two fields do not tell. */
  const HASH: Chars := [35]

  const NONE: seq<Chars> := [[], [], []]

  lemma ThreeEmptyFields(st: Statics, s1: Statics, s2: Statics, s3: Statics)
    requires Advance(st, HASH, true) == (s1, Some([])) && Advance(s1, HASH, true) == (s2, Some([]))
    requires Advance(s2, HASH, true) == (s3, Some([]))
    ensures Construct(st, HASH, []) == Construct(s3, HASH, NONE)
  {
    hide Construct, Advance;
    OneMore(st, HASH, NONE[..0], s1, []);
    assert NONE[..0] + [[]] == NONE[..1];
    OneMore(s1, HASH, NONE[..1], s2, []);
    assert NONE[..1] + [[]] == NONE[..2];
    OneMore(s2, HASH, NONE[..2], s3, []);
    assert NONE[..2] + [[]] == NONE;
  }

  lemma HashFirst()
    ensures var r := Construct(FIRST, HASH, []); r.Built? && |r.fields| == 8 && r.fields[3] == []
  {
    hide Construct;
    HashFirstSteps();
    var s1, s2, s3 := Statics(SCHEME, NPOS, 0), Statics(AUTHORITY, NPOS, 0), Statics(PATH, 0, 0);
    SameFirstSteps(FIRST, FIRST, HASH);
    ThreeEmptyFields(FIRST, s1, s2, s3);
    OneMore(s3, HASH, NONE, Statics(QUERY, 0, 0), []);
    FieldsKeep(Statics(QUERY, 0, 0), HASH, NONE + [[]]);
  }

  lemma HashFirstSteps()
    ensures Advance(FIRST, HASH, true) == (Statics(SCHEME, NPOS, 0), Some([]))
    ensures Advance(Statics(SCHEME, NPOS, 0), HASH, true) == (Statics(AUTHORITY, NPOS, 0), Some([]))
    ensures Advance(Statics(AUTHORITY, NPOS, 0), HASH, true) == (Statics(PATH, 0, 0), Some([]))
    ensures Advance(Statics(PATH, 0, 0), HASH, true) == (Statics(QUERY, 0, 0), Some([]))
  {
    FindInHash();
    assert HASH[0..0] == [] && HASH[1..] == [] && HASH[0..] == HASH;
    hide Find;
  }

  lemma HashShifted()
    ensures var r := Construct(SHIFTED, HASH, []); r.Built? ==> |r.fields| == 8 && r.fields[3] == HASH
  {
    hide Construct;
    HashShiftedSteps();
    var s1, s2 := Statics(QUERY, NPOS, 0), Statics(FRAGMENT, NPOS, 0);
    var s3, s4 := Statics(USERINFO, NPOS, 0), Statics(HOST, NPOS, NPOS);
    ThreeEmptyFields(SHIFTED, s1, s2, s3);
    OneMore(s3, HASH, NONE, s4, HASH);
    FieldsKeep(s4, HASH, NONE + [HASH]);
  }

  lemma HashShiftedSteps()
    ensures Advance(SHIFTED, HASH, true) == (Statics(QUERY, NPOS, 0), Some([]))
    ensures Advance(Statics(QUERY, NPOS, 0), HASH, true) == (Statics(FRAGMENT, NPOS, 0), Some([]))
    ensures Advance(Statics(FRAGMENT, NPOS, 0), HASH, true) == (Statics(USERINFO, NPOS, 0), Some([]))
    ensures Advance(Statics(USERINFO, NPOS, 0), HASH, true) == (Statics(HOST, NPOS, NPOS), Some(HASH))
  {
    FindInHash();
    assert HASH[0..0] == [] && HASH[1..] == [] && HASH[0..] == HASH;
    hide Find;
  }

  lemma FindInHash()
    ensures Find(HASH, AFTER_SCHEME, 0) == Find(HASH, SLASH_MARK, 0) == Find(HASH, QUESTION_MARK, 0) == NPOS
    ensures Find(HASH, HASH_MARK, 0) == 0 && Find(HASH, HASH_MARK, 1) == NPOS
    ensures Find(HASH, AT_MARK, 0) == Find(HASH, COLON_MARK, 0) == NPOS
  {
    FindNothing(HASH, AFTER_SCHEME, 0);
    FindNothing(HASH, SLASH_MARK, 0);
    FindNothing(HASH, QUESTION_MARK, 0);
    FindNothing(HASH, HASH_MARK, 1);
    FindNothing(HASH, AT_MARK, 0);
    FindNothing(HASH, COLON_MARK, 0);
    FindFrom(HASH, HASH_MARK, 0, 0);
  }

  /** No URI but the empty one is cut the same way after an empty one. */
  lemma ShiftedIsVisible(s: Chars)
    requires 0 < |s| < NPOS
    ensures Visible(Construct(SHIFTED, s, [])) != Visible(Construct(FIRST, s, []))
  {
    hide Construct, Find;
    var first, shifted := Construct(FIRST, s, []), Construct(SHIFTED, s, []);
    FirstFields(s);
    ShiftedFields(s);
    if shifted.Built? {
      var i, hash := Find(s, AFTER_SCHEME, 0), Find(s, HASH_MARK, 0);
      if i != NPOS {
        FindHolds(s, AFTER_SCHEME, 0);
        assert s[i] == s[i..i + 3][0];
      }
      if hash != NPOS {
        FindHolds(s, HASH_MARK, 0);
        assert s[hash] == s[hash..hash + 1][0];
      }
      if hash == 0 && i == NPOS && |s| == 1 {
        assert s == HASH;
        HashFirst();
        HashShifted();
      } else if hash == 0 && i == NPOS {
        assert |shifted.fields[1]| == |s| - 1;
      } else {
        assert |shifted.fields[0]| != |first.fields[0]|;
      }
    }
  }

  // ----- Histories

  lemma {:induction false} AfterOneMore(st: Statics, history: seq<Chars>, s: Chars)
    ensures After(st, history + [s]) == Construct(After(st, history), s, []).st
    decreases |history|
  {
    hide Construct;
    if |history| == 0 {
      assert history + [s] == [s] && [s][1..] == [];
    } else {
      assert (history + [s])[0] == history[0] && (history + [s])[1..] == history[1..] + [s];
      AfterOneMore(Construct(st, history[0], []).st, history[1..], s);
    }
  }

  predicate Short(uris: seq<Chars>) {
    forall i :: 0 <= i < |uris| ==> |uris[i]| < NPOS
  }

  /** No empty URI stands before one that is not empty. */
  predicate EmptyOnesLast(uris: seq<Chars>) {
    forall i, j :: 0 <= i < j < |uris| && uris[i] == [] ==> uris[j] == []
  }

  /** Where the statics are as long as the empty URIs stand last. */
  lemma {:induction false} StaticsAfter(st: Statics, uris: seq<Chars>)
    requires st.step == PORT && Short(uris) && EmptyOnesLast(uris)
    ensures if |uris| > 0 && uris[|uris| - 1] == [] then After(st, uris) == SHIFTED else After(st, uris).step == PORT
    decreases |uris|
  {
    hide Construct;
    if |uris| > 0 {
      var init, last := uris[..|uris| - 1], uris[|uris| - 1];
      assert uris == init + [last];
      StaticsAfter(st, init);
      AfterOneMore(st, init, last);
      if last != [] {
        SameFirstSteps(After(st, init), FIRST, last);
      } else if |init| > 0 && init[|init| - 1] == [] {
        EmptyUriThrowsAgain();
      } else {
        EmptyUriThrows(After(st, init));
      }
    }
  }

  /** Construction k gives what it would give first in the process. */
  predicate AsIfFirst(st: Statics, uris: seq<Chars>, k: nat)
    requires k < |uris|
  {
    Visible(Construct(After(st, uris[..k]), uris[k], [])) == Visible(Construct(FIRST, uris[k], []))
  }

  lemma PrefixKeeps(uris: seq<Chars>, k: nat)
    requires k <= |uris| && Short(uris)
    ensures Short(uris[..k])
    ensures EmptyOnesLast(uris) ==> EmptyOnesLast(uris[..k])
  {
  }

  lemma AllAsIfFirst(st: Statics, uris: seq<Chars>, k: nat)
    requires st.step == PORT && Short(uris) && EmptyOnesLast(uris) && k < |uris|
    ensures AsIfFirst(st, uris, k)
  {
    hide Construct, After;
    PrefixKeeps(uris, k);
    StaticsAfter(st, uris[..k]);
    if uris[k] != [] {
      assert k > 0 ==> uris[..k][k - 1] == uris[k - 1];
      SameFirstSteps(After(st, uris[..k]), FIRST, uris[k]);
    } else {
      EmptyUriThrows(FIRST);
      if After(st, uris[..k]).step == PORT {
        EmptyUriThrows(After(st, uris[..k]));
      } else {
        EmptyUriThrowsAgain();
      }
    }
  }

  /** The first URI that is not empty behind one that is. */
  lemma {:induction false} FirstVictim(uris: seq<Chars>) returns (k: nat)
    requires !EmptyOnesLast(uris)
    ensures 0 < k < |uris| && EmptyOnesLast(uris[..k]) && uris[k - 1] == [] && uris[k] != []
    decreases |uris|
  {
    var init := uris[..|uris| - 1];
    if !EmptyOnesLast(init) {
      k := FirstVictim(init);
      assert init[..k] == uris[..k];
    } else {
      k := |uris| - 1;
      var i, j :| 0 <= i < j < |uris| && uris[i] == [] && uris[j] != [];
      assert forall x :: 0 <= x < k ==> init[x] == uris[x];
    }
  }

  /** For every list of URIs constructed one after the other: each gives what it would give first in the
      process if and only if no empty URI stands before one that is not empty. */
  lemma AsIfFirstIff(st: Statics, uris: seq<Chars>)
    requires st.step == PORT && Short(uris)
    ensures (forall k :: 0 <= k < |uris| ==> AsIfFirst(st, uris, k)) <==> EmptyOnesLast(uris)
  {
    hide Construct, After, AsIfFirst;
    if EmptyOnesLast(uris) {
      forall k | 0 <= k < |uris| ensures AsIfFirst(st, uris, k) {
        AllAsIfFirst(st, uris, k);
      }
    } else {
      var k := FirstVictim(uris);
      NotAsIfFirst(st, uris, k);
    }
  }

  lemma NotAsIfFirst(st: Statics, uris: seq<Chars>, k: nat)
    requires st.step == PORT && Short(uris) && 0 < k < |uris|
    requires EmptyOnesLast(uris[..k]) && uris[k - 1] == [] && uris[k] != []
    ensures !AsIfFirst(st, uris, k)
  {
    hide Construct, After;
    PrefixKeeps(uris, k);
    StaticsAfter(st, uris[..k]);
    ShiftedIsVisible(uris[k]);
  }
}
