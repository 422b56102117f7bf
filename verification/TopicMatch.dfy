/** Matching a topic against a subscription filter in one pass, and what that means level by level. */
module TopicMatch {
  // ------------------------------------------------------------------ the one-pass matcher

  /** Where the first level of a topic ends. */
  function LevelEnd(s: string): (k: nat)
    ensures k <= |s| && (k < |s| ==> s[k] == '/') && forall j :: 0 <= j < k ==> s[j] != '/'
  {
    if s == "" || s[0] == '/' then 0 else 1 + LevelEnd(s[1..])
  }

  /** What the pass decides for the rest of a filter and the rest of a topic. */
  predicate Pass(f: string, n: string)
    decreases |f|
  {
    if f == "" || n == "" then f == "" && n == ""
    else if n[0] == '/' && f[0] != '/' then false
    else if f[0] == '+' then Pass(f[1..], n[LevelEnd(n)..])
    else if f[0] == '#' then Pass(f[1..], "")
    else f[0] == n[0] && Pass(f[1..], n[1..])
  }

  /** mqtt_topic_is_matched */
  method IsMatched(filter: string, topic: string) returns (matched: bool)
    ensures matched == Pass(filter, topic)
  {
    var i, j := 0, 0;
    while i < |filter| && j < |topic|
      invariant 0 <= i <= |filter| && 0 <= j <= |topic|
      invariant Pass(filter[i..], topic[j..]) == Pass(filter, topic)
      decreases |filter| - i
    {
      var f, n := filter[i], topic[j];
      if n == '/' && f != '/' {
        break;
      }
      if f != '+' && f != '#' && f != n {
        break;
      }
      ghost var level := j;
      if f == '+' {
        j := LastOfLevel(topic, j);
      } else if f == '#' {
        j := |topic| - 1;
      }
      assert filter[i..][1..] == filter[i + 1..] && topic[level..][1..] == topic[level + 1..];
      i := i + 1;
      j := j + 1;
    }
    matched := j == |topic| && i == |filter|;
  }

  /** The inner loop: to the last character of the level. */
  method LastOfLevel(topic: string, at: nat) returns (j: nat)
    requires at < |topic| && topic[at] != '/'
    ensures at <= j < |topic| && LevelEnd(topic[at..]) == j + 1 - at && topic[at..][j + 1 - at..] == topic[j + 1..]
  {
    j := at;
    var next := j + 1;
    while next < |topic| && topic[next] != '/'
      invariant at <= j && next == j + 1 <= |topic|
      invariant forall k :: at <= k <= j ==> topic[k] != '/'
      decreases |topic| - next
    {
      j := j + 1;
      next := j + 1;
    }
    LevelOver(topic, at, j + 1);
  }

  lemma LevelOver(topic: string, at: nat, end: nat)
    requires at < end <= |topic| && (forall k :: at <= k < end ==> topic[k] != '/')
      && (end < |topic| ==> topic[end] == '/')
    ensures LevelEnd(topic[at..]) == end - at && topic[at..][end - at..] == topic[end..]
  {
  }

  // ------------------------------------------------------------------ levels

  function Levels(s: string): (r: seq<string>)
    ensures r != []
    decreases |s|
  {
    var k := LevelEnd(s);
    if k == |s| then [s] else [s[..k]] + Levels(s[k + 1..])
  }

  predicate Plain(level: string) {
    forall j :: 0 <= j < |level| ==> level[j] != '+' && level[j] != '#' && level[j] != '/'
  }

  /** A wildcard fills its level, and "#" is the last one. */
  predicate WellFormed(fs: seq<string>) {
    fs == [] || ((Plain(fs[0]) || fs[0] == "+" || fs == ["#"]) && WellFormed(fs[1..]))
  }

  /** Section 4.7.1 of MQTT 3.1.1: "+" matches any one level, "#" the parent and everything below it. */
  predicate Matches(fs: seq<string>, ns: seq<string>) {
    if fs == [] then ns == []
    else if fs[0] == "#" then true
    else ns != [] && (fs[0] == "+" || fs[0] == ns[0]) && Matches(fs[1..], ns[1..])
  }

  /** A wildcard of the filter meets an empty level, or "#" nothing at all. */
  predicate MeetsNothing(fs: seq<string>, ns: seq<string>) {
    if fs == [] then false
    else if ns == [] then fs[0] == "#"
    else (fs[0] in ["+", "#"] && ns[0] == "") || MeetsNothing(fs[1..], ns[1..])
  }

  /** A level without wildcards is passed over exactly when the topic has the same level. */
  lemma {:induction false} PlainLevel(f: string, n: string, k: nat)
    requires k <= |f| && Plain(f[..k]) && (k < |f| ==> f[k] == '/')
    ensures var e := LevelEnd(n); Pass(f, n) <==> f[..k] == n[..e] && Pass(f[k..], n[e..])
    decreases k
  {
    var e := LevelEnd(n);
    if k == 0 {
      if e > 0 && f != "" {
        assert !Pass(f, n);
      }
    } else if n != "" && n[0] != '/' {
      PlainFirst(f, n, k);
      hide Pass;
      hide LevelEnd;
      hide Plain;
      PlainLevel(f[1..], n[1..], k - 1);
      SameFirst(f, n, k, e);
    } else {
      assert f[0] == f[..k][0];
    }
  }

  lemma PlainFirst(f: string, n: string, k: nat)
    requires 0 < k <= |f| && Plain(f[..k]) && n != "" && n[0] != '/'
    ensures Pass(f, n) <==> f[0] == n[0] && Pass(f[1..], n[1..])
    ensures Plain(f[1..][..k - 1]) && LevelEnd(n) == 1 + LevelEnd(n[1..])
  {
    assert f[0] == f[..k][0];
    assert f[1..][..k - 1] == f[..k][1..];
  }

  lemma SameFirst(f: string, n: string, k: nat, e: nat)
    requires 0 < k <= |f| && 0 < e <= |n|
    ensures f[..k] == n[..e] <==> f[0] == n[0] && f[1..][..k - 1] == n[1..][..e - 1]
    ensures f[1..][k - 1..] == f[k..] && n[1..][e - 1..] == n[e..]
  {
    assert f[..k] == [f[0]] + f[1..][..k - 1] && n[..e] == [n[0]] + n[1..][..e - 1];
  }

  /** At the end of a level, filter and topic end together or both go on. */
  lemma NextLevel(f: string, n: string)
    requires (f != "" ==> f[0] == '/') && (n != "" ==> n[0] == '/')
    ensures Pass(f, n) <==> (f == "" <==> n == "") && (f != "" && n != "" ==> Pass(f[1..], n[1..]))
  {
  }

  lemma LevelsStep(s: string)
    ensures var k := LevelEnd(s);
      Levels(s)[0] == s[..k] && Levels(s)[1..] == if k == |s| then [] else Levels(s[k + 1..])
  {
    var k := LevelEnd(s);
    if k == |s| {
      assert s[..k] == s;
    }
  }

  /** For every well-formed filter and every topic: the pass is level matching in which no wildcard meets nothing. */
  lemma {:induction false} PassIsLevelMatching(f: string, n: string)
    requires WellFormed(Levels(f))
    ensures Pass(f, n) <==> Matches(Levels(f), Levels(n)) && !MeetsNothing(Levels(f), Levels(n))
    decreases |f|
  {
    var k, e := LevelEnd(f), LevelEnd(n);
    var fs, ns := Levels(f), Levels(n);
    LevelsStep(f);
    LevelsStep(n);
    assert n[..e] == "" <==> e == 0;
    if fs == ["#"] {
      assert f == "#";
    } else {
      if fs[0] == "+" {
        assert f == "+" + f[k..];
        assert f[1..] == f[k..];
        assert Pass(f, n) <==> e > 0 && Pass(f[k..], n[e..]);
      } else {
        PlainLevel(f, n, k);
        PlainNoWildcard(fs[0]);
      }
      NextLevel(f[k..], n[e..]);
      if k < |f| && e < |n| {
        assert f[k..][1..] == f[k + 1..] && n[e..][1..] == n[e + 1..];
        PassIsLevelMatching(f[k + 1..], n[e + 1..]);
      }
      RestOfLevels(f, n);
    }
  }

  lemma PlainNoWildcard(level: string)
    requires Plain(level)
    ensures level != "+" && level != "#"
  {
    assert "+"[0] == '+' && "#"[0] == '#';
  }

  /** When one of the two has no further level, only "#" could still match. */
  lemma RestOfLevels(f: string, n: string)
    ensures var fs, ns := Levels(f)[1..], Levels(n)[1..];
      && (LevelEnd(f) == |f| <==> fs == []) && (LevelEnd(n) == |n| <==> ns == [])
      && (fs == [] || ns == [] ==> (Matches(fs, ns) && !MeetsNothing(fs, ns) <==> fs == [] && ns == []))
  {
    LevelsStep(f);
    LevelsStep(n);
  }

  /** Sound for every well-formed filter and every topic. */
  lemma Sound(f: string, n: string)
    requires WellFormed(Levels(f)) && Pass(f, n)
    ensures Matches(Levels(f), Levels(n))
  {
    PassIsLevelMatching(f, n);
  }

  predicate NoEmptyLevel(ns: seq<string>) { forall j :: 0 <= j < |ns| ==> ns[j] != "" }

  /** The filter ends with "#" and the topic is its parent or above. */
  predicate OnlyParent(fs: seq<string>, ns: seq<string>) {
    fs != [] && fs[|fs| - 1] == "#" && |ns| < |fs|
  }

  lemma {:induction false} WithoutEmptyLevels(fs: seq<string>, ns: seq<string>)
    requires WellFormed(fs) && NoEmptyLevel(ns) && Matches(fs, ns)
    ensures MeetsNothing(fs, ns) <==> OnlyParent(fs, ns)
    decreases |fs|
  {
    if fs != [] {
      if Plain(fs[0]) {
        PlainNoWildcard(fs[0]);
      }
      if fs[0] != "#" {
        WithoutEmptyLevels(fs[1..], ns[1..]);
      }
    }
  }

  /** For topics without empty levels the pass is the standard's matching, but for "#" at a parent level. */
  lemma AgreesWithStandard(f: string, n: string)
    requires WellFormed(Levels(f)) && NoEmptyLevel(Levels(n))
    ensures Pass(f, n) <==> Matches(Levels(f), Levels(n)) && !OnlyParent(Levels(f), Levels(n))
  {
    PassIsLevelMatching(f, n);
    if Matches(Levels(f), Levels(n)) {
      WithoutEmptyLevels(Levels(f), Levels(n));
    }
  }

  /** The exceptions exist: the standard lets "a/#" match "a"... */
  lemma ParentRefused()
    ensures Matches(Levels("a/#"), Levels("a")) && !Pass("a/#", "a")
  {
    assert "a"[1..] == "" && "#"[1..] == "" && "/#"[1..] == "#";
    assert "a/#"[1..] == "/#" && "a/#"[..1] == "a" && "a/#"[2..] == "#";
    assert Levels("#") == ["#"] && Levels("a") == ["a"];
    var fs, ns := ["a", "#"], ["a"];
    assert Levels("a/#") == ["a"] + Levels("#") == fs;
    assert fs[1..] == ["#"] && ns[1..] == [] && Matches(["#"], []) && Matches(fs, ns);
  }

  /** ... and "+/b" match "/b". */
  lemma EmptyLevelRefused()
    ensures Matches(Levels("+/b"), Levels("/b")) && !Pass("+/b", "/b")
  {
    assert "b"[1..] == "" && "+/b"[1..] == "/b" && "+/b"[..1] == "+" && "+/b"[2..] == "b" && "/b"[..0] == ""
      && "/b"[1..] == "b";
    assert Levels("b") == ["b"];
    var fs, ns := ["+", "b"], ["", "b"];
    assert Levels("+/b") == ["+"] + Levels("b") == fs && Levels("/b") == [""] + Levels("b") == ns;
    assert fs[1..] == ["b"] && ns[1..] == ["b"] && Matches(["b"], ["b"]) && Matches(fs, ns);
  }
}
