/** The topic matcher of src/libmqtt/MQTTClient.c against section 4.7 of MQTT 3.1.1. */
module TopicFilter {
  import opened Common
  import opened MqttPacket

  const SEPARATOR: Byte := 47
  const PLUS: Byte := 43
  const HASH: Byte := 35

  // ---- Topics as the standard sees them ----

  // The levels of a topic name or filter: what the separators leave
  function Levels(s: Bytes): (levels: seq<Bytes>)
    ensures levels != []
  {
    if s == [] then [[]] else
    var rest := Levels(s[1..]);
    if s[0] == SEPARATOR then [[]] + rest else [[s[0]] + rest[0]] + rest[1..]
  }

  predicate Wildcard(level: Bytes) {
    level == [PLUS] || level == [HASH]
  }

  predicate Literal(level: Bytes) {
    PLUS !in level && HASH !in level
  }

  // Wildcards stand alone in their level, and '#' only in the last one.
  predicate WellFormed(filter: seq<Bytes>) {
    forall i :: 0 <= i < |filter| ==>
      Literal(filter[i]) || filter[i] == [PLUS] || (filter[i] == [HASH] && i == |filter| - 1)
  }

  // Section 4.7.1: '+' matches any one level, and a final '#' any number of levels, including
  // none.
  predicate StandardMatch(filter: seq<Bytes>, name: seq<Bytes>) {
    if filter == [] then name == []
    else if filter[0] == [HASH] then true
    else name != [] && (filter[0] == [PLUS] || filter[0] == name[0]) && StandardMatch(filter[1..], name[1..])
  }

  // Every wildcard of the filter lies over a level of the name that is not empty.
  predicate WildcardsCovered(filter: seq<Bytes>, name: seq<Bytes>) {
    forall i :: 0 <= i < |filter| && Wildcard(filter[i]) ==> i < |name| && name[i] != []
  }

  // ---- The matcher ----

  // What is left of a name from the next separator on
  function NextSeparator(name: Bytes): (rest: Bytes)
    ensures |rest| <= |name| && rest == name[|name| - |rest|..]
  {
    if name == [] || name[0] == SEPARATOR then name else NextSeparator(name[1..])
  }

  predicate Matches(filter: Bytes, name: Bytes) {
    if filter == [] || name == [] then filter == name
    else if name[0] == SEPARATOR && filter[0] != SEPARATOR then false
    else if filter[0] == PLUS then Matches(filter[1..], NextSeparator(name[1..]))
    else if filter[0] == HASH then Matches(filter[1..], [])
    else filter[0] == name[0] && Matches(filter[1..], name[1..])
  }

  // isTopicMatched
  method IsTopicMatched(filter: Bytes, name: Bytes) returns (matched: bool)
    ensures matched == Matches(filter, name)
  {
    hide MatchesAt;
    var curf: nat, curn: nat := 0, 0;
    MatchesFromStart(filter, name);
    while curf < |filter| && curn < |name|
      invariant curf <= |filter| && curn <= |name|
      invariant Matches(filter, name) == MatchesAt(filter, name, curf, curn)
      decreases |filter| - curf
    {
      MatchStep(filter, name, curf, curn);
      if name[curn] == SEPARATOR && filter[curf] != SEPARATOR {
        break;
      }
      if filter[curf] != PLUS && filter[curf] != HASH && filter[curf] != name[curn] {
        break;
      }
      if filter[curf] == PLUS {
        ghost var from := curn + 1;
        var nextpos := curn + 1;
        while nextpos < |name| && name[nextpos] != SEPARATOR
          invariant nextpos == curn + 1 <= |name|
          invariant NextAt(name, from) == NextAt(name, nextpos)
        {
          curn := curn + 1;
          nextpos := curn + 1;
        }
      } else if filter[curf] == HASH {
        curn := |name| - 1;
      }
      curf := curf + 1;
      curn := curn + 1;
    }
    MatchStep(filter, name, curf, curn);
    matched := curn == |name| && curf == |filter|;
  }

  predicate MatchesAt(filter: Bytes, name: Bytes, f: nat, n: nat)
    requires f <= |filter| && n <= |name|
  {
    Matches(filter[f..], name[n..])
  }

  lemma MatchesFromStart(filter: Bytes, name: Bytes)
    ensures MatchesAt(filter, name, 0, 0) == Matches(filter, name)
  {}

  // Where the next separator is
  function NextAt(name: Bytes, n: nat): (next: nat)
    requires n <= |name|
    ensures n <= next <= |name|
    decreases |name| - n
  {
    if n == |name| || name[n] == SEPARATOR then n else NextAt(name, n + 1)
  }

  lemma {:induction false} NextSeparatorAt(name: Bytes, n: nat)
    requires n <= |name|
    ensures NextSeparator(name[n..]) == name[NextAt(name, n)..]
    decreases |name| - n
  {
    if n < |name| {
      assert name[n..][1..] == name[n + 1..];
      NextSeparatorAt(name, n + 1);
    }
  }

  // One round of the loop
  lemma MatchStep(filter: Bytes, name: Bytes, f: nat, n: nat)
    requires f <= |filter| && n <= |name|
    ensures f == |filter| || n == |name| ==> (MatchesAt(filter, name, f, n) <==> f == |filter| && n == |name|)
    ensures f < |filter| && n < |name| ==>
      && MatchesAt(filter, name, f, n) ==
        if name[n] == SEPARATOR && filter[f] != SEPARATOR then false
        else if filter[f] == PLUS then MatchesAt(filter, name, f + 1, NextAt(name, n + 1))
        else if filter[f] == HASH then MatchesAt(filter, name, f + 1, |name|)
        else filter[f] == name[n] && MatchesAt(filter, name, f + 1, n + 1)
  {
    if f < |filter| && n < |name| {
      assert filter[f..][1..] == filter[f + 1..] && name[n..][1..] == name[n + 1..];
      NextSeparatorAt(name, n + 1);
    }
  }

  // ---- The matcher and the standard ----

  lemma LevelsOfTail(s: Bytes)
    requires s != []
    ensures s[0] == SEPARATOR ==> Levels(s)[0] == [] && Levels(s)[1..] == Levels(s[1..])
    ensures s[0] != SEPARATOR ==> Levels(s)[0] == [s[0]] + Levels(s[1..])[0] && Levels(s)[1..] == Levels(s[1..])[1..]
  {}

  lemma {:induction false} EmptyLevels(s: Bytes)
    ensures Levels(s)[0] == [] <==> s == [] || s[0] == SEPARATOR
    ensures Levels(s) == [[]] <==> s == []
  {}

  lemma {:induction false} LevelsBehind(name: Bytes)
    requires name != [] && name[0] != SEPARATOR
    ensures Levels(NextSeparator(name[1..])) == [[]] + Levels(name)[1..]
  {
    var rest := name[1..];
    if rest != [] && rest[0] != SEPARATOR {
      LevelsBehind(rest);
    }
  }

  // Dropping equal characters, or levels that have been matched
  lemma FirstLevel(filter: seq<Bytes>, name: seq<Bytes>)
    requires filter != [] && name != [] && filter[0] != [HASH]
    ensures StandardMatch(filter, name) && WildcardsCovered(filter, name) <==>
      && (filter[0] == name[0] || filter[0] == [PLUS]) && (Wildcard(filter[0]) ==> name[0] != [])
      && StandardMatch(filter[1..], name[1..]) && WildcardsCovered(filter[1..], name[1..])
  {
    if WildcardsCovered(filter, name) {
      forall i | 0 <= i < |filter[1..]| && Wildcard(filter[1..][i]) ensures i < |name[1..]| && name[1..][i] != [] {
        assert filter[i + 1] == filter[1..][i];
      }
    }
    if (Wildcard(filter[0]) ==> name[0] != []) && WildcardsCovered(filter[1..], name[1..]) {
      forall i | 0 <= i < |filter| && Wildcard(filter[i]) ensures i < |name| && name[i] != [] {
        if i > 0 {
          assert filter[1..][i - 1] == filter[i];
        }
      }
    }
  }

  lemma WellFormedTail(filter: seq<Bytes>, first: Bytes)
    requires filter != [] && WellFormed(filter) && Literal(first)
    ensures WellFormed([first] + filter[1..])
  {}

  lemma WellFormedRest(filter: seq<Bytes>)
    requires filter != [] && WellFormed(filter)
    ensures WellFormed(filter[1..])
  {}

  // For every well-formed filter and every topic name, the matcher agrees with the standard
  // except that a wildcard never matches an empty level and '#' never matches the parent level.
  lemma {:induction false} MatcherExact(filter: Bytes, name: Bytes)
    requires WellFormed(Levels(filter))
    ensures Matches(filter, name)
      <==> StandardMatch(Levels(filter), Levels(name)) && WildcardsCovered(Levels(filter), Levels(name))
    decreases |filter|
  {
    var fs, ns := Levels(filter), Levels(name);
    EmptyLevels(filter);
    EmptyLevels(name);
    if filter == [] {
      FirstLevel(fs, ns);
    } else {
      LevelsOfTail(filter);
      if filter[0] == HASH {
        HashLast(filter);
        if name != [] && name[0] != SEPARATOR {
        } else {
          assert Wildcard(fs[0]);
        }
      } else {
        assert fs[0] != [HASH];
        FirstLevel(fs, ns);
        if name == [] {
          NoNameLeft(filter);
        } else {
          LevelsOfTail(name);
          if filter[0] == PLUS {
            PlusAlone(filter);
            if name[0] != SEPARATOR {
              LevelsBehind(name);
              assert fs[1..] == Levels(filter[1..])[1..];
              WellFormedTail(fs, []);
              assert Levels(filter[1..]) == [[]] + fs[1..];
              MatcherExact(filter[1..], NextSeparator(name[1..]));
              FirstLevel([[]] + fs[1..], [[]] + ns[1..]);
            }
          } else if filter[0] == SEPARATOR {
            WellFormedRest(fs);
            if name[0] == SEPARATOR {
              MatcherExact(filter[1..], name[1..]);
            }
          } else {
            CharacterStep(filter, name);
            if name[0] == filter[0] {
              MatcherExact(filter[1..], name[1..]);
            }
          }
        }
      }
    }
  }

  lemma NoNameLeft(filter: Bytes)
    requires filter != [] && WellFormed(Levels(filter))
    ensures !(StandardMatch(Levels(filter), [[]]) && WildcardsCovered(Levels(filter), [[]]))
  {}

  lemma HashLast(filter: Bytes)
    requires filter != [] && filter[0] == HASH && WellFormed(Levels(filter))
    ensures filter == [HASH] && Levels(filter) == [[HASH]]
  {
    LevelsOfTail(filter);
    EmptyLevels(filter[1..]);
    assert HASH in Levels(filter)[0] && !Literal(Levels(filter)[0]);
  }

  lemma PlusAlone(filter: Bytes)
    requires filter != [] && filter[0] == PLUS && WellFormed(Levels(filter))
    ensures Levels(filter)[0] == [PLUS] && Levels(filter[1..])[0] == []
  {}

  lemma CharacterStep(filter: Bytes, name: Bytes)
    requires filter != [] && name != [] && WellFormed(Levels(filter)) && filter[0] !in {PLUS, HASH, SEPARATOR}
    ensures WellFormed(Levels(filter[1..]))
    ensures var exact := StandardMatch(Levels(filter), Levels(name)) && WildcardsCovered(Levels(filter), Levels(name));
      && (filter[0] != name[0] ==> !exact)
      && (filter[0] == name[0] ==>
        (exact <==>
          && StandardMatch(Levels(filter[1..]), Levels(name[1..]))
          && WildcardsCovered(Levels(filter[1..]), Levels(name[1..]))))
  {
    var fs, ns, fs', ns' := Levels(filter), Levels(name), Levels(filter[1..]), Levels(name[1..]);
    LevelsOfTail(filter);
    LevelsOfTail(name);
    EmptyLevels(name);
    assert fs[0][0] == filter[0] && Literal(fs[0]);
    assert Literal(fs'[0]) by {
      assert forall c :: c in fs'[0] ==> c in fs[0];
    }
    assert fs' == [fs'[0]] + fs[1..];
    WellFormedTail(fs, fs'[0]);
    FirstLevel(fs, ns);
    FirstLevel(fs', ns');
    if name[0] == SEPARATOR {
      assert ns[0] == [];
    } else {
      assert ns[0][0] == name[0];
      assert fs[0] == ns[0] ==> fs[0][1..] == ns[0][1..];
      assert fs[0][1..] == fs'[0] && ns[0][1..] == ns'[0];
    }
  }

  // What the matcher accepts, the standard accepts.
  lemma MatcherSound(filter: Bytes, name: Bytes)
    requires WellFormed(Levels(filter)) && Matches(filter, name)
    ensures StandardMatch(Levels(filter), Levels(name))
  {
    MatcherExact(filter, name);
  }

  // For names without empty levels only the parent level of a final '#' is missing.
  lemma MatcherOnPlainNames(filter: Bytes, name: Bytes)
    requires WellFormed(Levels(filter)) && [] !in Levels(name)
    ensures var fs, ns := Levels(filter), Levels(name);
      Matches(filter, name) <==> StandardMatch(fs, ns) && !(fs[|fs| - 1] == [HASH] && |fs| == |ns| + 1)
  {
    var fs, ns := Levels(filter), Levels(name);
    MatcherExact(filter, name);
    if StandardMatch(fs, ns) {
      MatchedLengths(fs, ns);
    }
  }

  lemma {:induction false} MatchedLengths(fs: seq<Bytes>, ns: seq<Bytes>)
    requires StandardMatch(fs, ns) && WellFormed(fs)
    ensures |fs| <= |ns| + 1
    ensures |fs| == |ns| + 1 ==> fs[|fs| - 1] == [HASH]
  {
    if fs != [] && fs[0] != [HASH] {
      WellFormedRest(fs);
      MatchedLengths(fs[1..], ns[1..]);
      if |fs| == |ns| + 1 {
        assert fs[1..][|fs| - 2] == fs[|fs| - 1];
      }
    }
  }

  // The comparison of whole strings that precedes the matcher adds nothing for well-formed
  // filters.
  lemma EqualIsMatched(filter: Bytes)
    requires WellFormed(Levels(filter))
    ensures Matches(filter, filter)
  {
    MatcherExact(filter, filter);
    SelfMatch(Levels(filter));
  }

  lemma {:induction false} SelfMatch(fs: seq<Bytes>)
    ensures StandardMatch(fs, fs) && WildcardsCovered(fs, fs)
  {
    if fs != [] && fs[0] != [HASH] {
      SelfMatch(fs[1..]);
    }
  }

  // Where the matcher is stricter than the standard: "a/#" for "a", and "+" for the empty name
  lemma StricterThanStandard()
    ensures !Matches([97, 47, 35], [97]) && StandardMatch(Levels([97, 47, 35]), Levels([97]))
    ensures !Matches([43], []) && StandardMatch(Levels([43]), Levels([]))
  {
    var f := [97, SEPARATOR, HASH];
    assert f[1..] == [SEPARATOR, HASH] && f[1..][1..] == [HASH];
    SingleLevel(97);
    SingleLevel(HASH);
    SingleLevel(PLUS);
    LevelsOfTail(f[1..]);
    LevelsOfTail(f);
    assert Levels(f)[0] == [97];
    assert StandardMatch(Levels(f)[1..], []);
  }

  lemma SingleLevel(c: Byte)
    requires c != SEPARATOR
    ensures Levels([c]) == [[c]]
  {
    var s: Bytes := [c];
    assert s[1..] == [];
    LevelsOfTail(s);
    assert Levels([]) == [[]] && s == [c] + Levels([])[0] && Levels([])[1..] == [];
    assert Levels(s) == [Levels(s)[0]] + Levels(s)[1..];
  }
}
