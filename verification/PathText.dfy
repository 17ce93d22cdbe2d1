/**
 Absolute paths as text and as component lists (src/platform.c).  Tokens are
 the maximal runs between slashes, `..` takes back the last component that is
 still there, and a canonical path prints as its components with one slash in
 front of each.
 */
module PathText {

  /** `strtok` with "/" as delimiter. */
  function Tokens(s: string): (r: seq<string>)
    decreases |s|
  {
    if s == [] then []
    else if s[0] == '/' then Tokens(s[1..])
    else [s[..RunLength(s)]] + Tokens(s[RunLength(s)..])
  }

  /** How far the first token reaches. */
  function RunLength(s: string): (k: nat)
    ensures k <= |s| && (forall i :: 0 <= i < k ==> s[i] != '/') && (k < |s| ==> s[k] == '/')
    ensures s != [] && s[0] != '/' ==> k > 0
  {
    if s == [] || s[0] == '/' then 0 else 1 + RunLength(s[1..])
  }

  predicate IsToken(t: string) {
    t != [] && '/' !in t
  }

  lemma {:induction false} TokensAreTokens(s: string)
    ensures forall t :: t in Tokens(s) ==> IsToken(t) && forall c :: c in t ==> c in s
    ensures 2 * |Tokens(s)| <= |s| + 1
    decreases |s|
  {
    if s != [] {
      if s[0] == '/' {
        TokensAreTokens(s[1..]);
      } else {
        var k := RunLength(s);
        TokensAreTokens(s[k..]);
        if k < |s| {
          TokensAreTokens(s[k + 1..]);
          assert s[k..][1..] == s[k + 1..];
        }
      }
    }
  }

  /** Text before and after a slash is tokenised separately. */
  lemma {:induction false} TokensOfJoin(a: string, b: string)
    ensures Tokens(a + "/" + b) == Tokens(a) + Tokens(b)
    decreases |a|
  {
    var s := a + "/" + b;
    if a == [] {
      assert s[1..] == b;
    } else if a[0] == '/' {
      assert s[1..] == a[1..] + "/" + b;
      TokensOfJoin(a[1..], b);
    } else {
      var k := RunLength(a);
      RunOfJoin(a, "/" + b);
      assert s == a + ("/" + b);
      assert s[..k] == a[..k] && s[k..] == a[k..] + "/" + b;
      TokensOfJoin(a[k..], b);
    }
  }

  lemma {:induction false} RunOfJoin(a: string, b: string)
    requires b != [] && b[0] == '/'
    ensures RunLength(a + b) == RunLength(a)
  {
    if a != [] && a[0] != '/' {
      assert (a + b)[1..] == a[1..] + b;
      RunOfJoin(a[1..], b);
    } else if a == [] {
      assert a + b == b;
    }
  }

  lemma {:induction false} TokenAlone(t: string)
    requires IsToken(t)
    ensures RunLength(t) == |t| && Tokens(t) == [t]
  {
    assert t[..|t|] == t && t[|t|..] == [];
  }

  // ---------------------------------------------------------------------------
  // Components
  // ---------------------------------------------------------------------------

  predicate IsComponent(t: string) {
    IsToken(t) && t != "." && t != ".." && '\\' !in t
  }

  predicate Canonical(parts: seq<string>) {
    forall i :: 0 <= i < |parts| ==> IsComponent(parts[i])
  }

  /** One token of the loop in `syseba_path_real`. */
  function Enter(parts: seq<string>, t: string): seq<string> {
    if t == "." || t == "" then parts
    else if t == ".." then if parts == [] then [] else parts[..|parts| - 1]
    else parts + [t]
  }

  /** The directory reached from the root by following the tokens. */
  function Resolve(tokens: seq<string>): seq<string> {
    if tokens == [] then [] else Enter(Resolve(tokens[..|tokens| - 1]), tokens[|tokens| - 1])
  }

  /** The same, read from the right: each `..` cancels the nearest component on its left that is not
      cancelled yet. */
  function Surviving(tokens: seq<string>, cancel: nat): seq<string> {
    if tokens == [] then []
    else
      var front, t := tokens[..|tokens| - 1], tokens[|tokens| - 1];
      if t == "." || t == "" then Surviving(front, cancel)
      else if t == ".." then Surviving(front, cancel + 1)
      else if cancel > 0 then Surviving(front, cancel - 1)
      else Surviving(front, 0) + [t]
  }

  function DropLast<T>(s: seq<T>, n: nat): seq<T> {
    if n <= |s| then s[..|s| - n] else []
  }

  lemma {:induction false} ResolveIsCancelling(tokens: seq<string>, cancel: nat)
    ensures Surviving(tokens, cancel) == DropLast(Resolve(tokens), cancel)
  {
    if tokens != [] {
      var front, t := tokens[..|tokens| - 1], tokens[|tokens| - 1];
      if t == "." || t == "" {
        ResolveIsCancelling(front, cancel);
      } else if t == ".." {
        ResolveIsCancelling(front, cancel + 1);
      } else if cancel > 0 {
        ResolveIsCancelling(front, cancel - 1);
      } else {
        ResolveIsCancelling(front, 0);
      }
    }
  }

  lemma {:induction false} ResolveCanonical(tokens: seq<string>)
    requires forall t :: t in tokens ==> IsToken(t) && '\\' !in t
    ensures Canonical(Resolve(tokens)) && |Resolve(tokens)| <= |tokens|
  {
    if tokens != [] {
      ResolveCanonical(tokens[..|tokens| - 1]);
      assert tokens[|tokens| - 1] in tokens;
    }
  }

  /** Components resolve to themselves, after whatever stands before them. */
  lemma {:induction false} ResolveAppend(tokens: seq<string>, parts: seq<string>)
    requires Canonical(parts)
    ensures Resolve(tokens + parts) == Resolve(tokens) + parts
  {
    if parts == [] {
      assert tokens + parts == tokens;
    } else {
      var n := |parts| - 1;
      assert (tokens + parts)[..|tokens| + n] == tokens + parts[..n];
      ResolveAppend(tokens, parts[..n]);
      assert parts == parts[..n] + [parts[n]];
    }
  }

  /** Where the tokens lead from a directory, one after the other. */
  function Follow(from: seq<string>, tokens: seq<string>): seq<string>
    decreases |tokens|
  {
    if tokens == [] then from else Follow(Enter(from, tokens[0]), tokens[1..])
  }

  lemma {:induction false} ResolveIsFollowing(a: seq<string>, b: seq<string>)
    ensures Resolve(a + b) == Follow(Resolve(a), b)
    decreases |b|
  {
    if b == [] {
      assert a + b == a;
    } else {
      assert a + b == (a + [b[0]]) + b[1..];
      assert (a + [b[0]])[..|a|] == a;
      ResolveIsFollowing(a + [b[0]], b[1..]);
    }
  }

  // ---------------------------------------------------------------------------
  // Text
  // ---------------------------------------------------------------------------

  /** A slash in front of every component. */
  function Slashed(parts: seq<string>): string {
    if parts == [] then "" else Slashed(parts[..|parts| - 1]) + "/" + parts[|parts| - 1]
  }

  /** The canonical text of a component list. */
  function Text(parts: seq<string>): string {
    if parts == [] then "/" else Slashed(parts)
  }

  lemma {:induction false} TokensOfSlashed(parts: seq<string>)
    requires Canonical(parts)
    ensures Tokens(Slashed(parts)) == parts
  {
    if parts != [] {
      var n := |parts| - 1;
      TokensOfSlashed(parts[..n]);
      TokensOfJoin(Slashed(parts[..n]), parts[n]);
      TokenAlone(parts[n]);
      assert parts == parts[..n] + [parts[n]];
    }
  }

  lemma TokensOfText(parts: seq<string>)
    requires Canonical(parts)
    ensures Tokens(Text(parts)) == parts
  {
    TokensOfSlashed(parts);
  }

  lemma {:induction false} SlashedAppend(a: seq<string>, b: seq<string>)
    ensures Slashed(a + b) == Slashed(a) + Slashed(b)
  {
    if b == [] {
      assert a + b == a;
    } else {
      var n := |b| - 1;
      assert (a + b)[..|a| + n] == a + b[..n];
      SlashedAppend(a, b[..n]);
    }
  }

  lemma {:induction false} TextFacts(parts: seq<string>)
    requires Canonical(parts)
    ensures Text(parts) != [] && Text(parts)[0] == '/' && '\\' !in Text(parts)
    ensures parts != [] ==> Text(parts)[|Text(parts)| - 1] != '/'
  {
    if |parts| > 0 {
      var n := |parts| - 1;
      assert IsComponent(parts[n]);
      var last := parts[n][|parts[n]| - 1];
      assert last in parts[n];
      if n > 0 {
        TextFacts(parts[..n]);
        assert Text(parts) == Text(parts[..n]) + "/" + parts[n];
      } else {
        assert parts[..n] == [];
        assert Slashed(parts[..n]) == "";
        assert Text(parts) == "" + "/" + parts[n];
      }
    }
  }

  /** On POSIX systems too, a backslash is taken for a slash. */
  function Separators(s: string): (r: string)
    ensures |r| == |s| && '\\' !in r
    ensures forall i :: 0 <= i < |s| ==> r[i] == if s[i] == '\\' then '/' else s[i]
  {
    seq(|s|, i requires 0 <= i < |s| => if s[i] == '\\' then '/' else s[i])
  }

  lemma SeparatorsJoin(a: string, b: string)
    ensures Separators(a + "/" + b) == Separators(a) + "/" + Separators(b)
  {
  }

  lemma SeparatorsSame(s: string)
    requires '\\' !in s
    ensures Separators(s) == s
  {
    forall i | 0 <= i < |s|
      ensures s[i] != '\\'
    {
      assert s[i] in s;
    }
  }

  /** The component list an absolute text stands for. */
  function Components(absolute: string): seq<string> {
    Resolve(Tokens(Separators(absolute)))
  }

  function Normal(absolute: string): string {
    Text(Components(absolute))
  }

  /** Whatever the text, the result is canonical, and it means what `..` means. */
  lemma NormalIsCanonical(absolute: string)
    ensures Canonical(Components(absolute))
    ensures Components(absolute) == Surviving(Tokens(Separators(absolute)), 0)
    ensures 2 * |Components(absolute)| <= |absolute| + 1
  {
    var tokens := Tokens(Separators(absolute));
    TokensAreTokens(Separators(absolute));
    ResolveCanonical(tokens);
    ResolveIsCancelling(tokens, 0);
  }

  lemma ComponentsOfText(parts: seq<string>)
    requires Canonical(parts)
    ensures Components(Text(parts)) == parts && Normal(Text(parts)) == Text(parts)
  {
    TextFacts(parts);
    SeparatorsSame(Text(parts));
    TokensOfText(parts);
    ResolveAppend([], parts);
    assert [] + parts == parts;
  }

  lemma NormalIdempotent(absolute: string)
    ensures Normal(Normal(absolute)) == Normal(absolute)
  {
    NormalIsCanonical(absolute);
    ComponentsOfText(Components(absolute));
  }

  /** Canonical text determines its components. */
  lemma TextInjective(a: seq<string>, b: seq<string>)
    requires Canonical(a) && Canonical(b) && Text(a) == Text(b)
    ensures a == b
  {
    TokensOfText(a);
    TokensOfText(b);
  }

  lemma {:induction false} TokensWeight(s: string)
    ensures |Slashed(Tokens(s))| <= |s| + 1
    ensures s != [] && s[0] == '/' ==> |Slashed(Tokens(s))| <= |s|
    decreases |s|
  {
    if s != [] {
      if s[0] == '/' {
        TokensWeight(s[1..]);
      } else {
        var k := RunLength(s);
        TokensWeight(s[k..]);
        SlashedAppend([s[..k]], Tokens(s[k..]));
        SlashedOne(s[..k]);
        if k == |s| {
          assert Tokens(s[k..]) == [];
        }
      }
    }
  }

  lemma SlashedOne(t: string)
    ensures |Slashed([t])| == |t| + 1
  {
    assert [t][..0] == [];
    assert Slashed([t]) == Slashed([]) + "/" + t;
  }

  lemma {:induction false} ResolveWeight(tokens: seq<string>)
    ensures |Slashed(Resolve(tokens))| <= |Slashed(tokens)|
  {
    if tokens != [] {
      var n := |tokens| - 1;
      ResolveWeight(tokens[..n]);
      var parts := Resolve(tokens[..n]);
      SlashedAppend(parts, [tokens[n]]);
      SlashedOne(tokens[n]);
    }
  }

  /** Entering `.` or `..` loses at least two characters. */
  lemma EnterLoses(parts: seq<string>, t: string)
    requires IsToken(t)
    ensures |Slashed(parts + [t])| == |Slashed(parts)| + |t| + 1
    ensures Enter(parts, t) == parts + [t] || |Slashed(Enter(parts, t))| + 2 <= |Slashed(parts)| + |t| + 1
  {
    SlashedAppend(parts, [t]);
    SlashedOne(t);
    if t == ".." && parts != [] {
      assert |Slashed(parts[..|parts| - 1])| <= |Slashed(parts)|;
    }
  }

  /** Tokens resolve to themselves, or lose at least two characters. */
  lemma {:induction false} ResolveLoses(tokens: seq<string>)
    requires forall t :: t in tokens ==> IsToken(t)
    ensures Resolve(tokens) == tokens || |Slashed(Resolve(tokens))| + 2 <= |Slashed(tokens)|
  {
    if tokens != [] {
      var front, t := tokens[..|tokens| - 1], tokens[|tokens| - 1];
      assert tokens == front + [t] && t in tokens;
      ResolveLoses(front);
      EnterLoses(Resolve(front), t);
      EnterLoses(front, t);
    }
  }

  /** Normalising never makes an absolute path longer. */
  lemma NormalShrinks(absolute: string)
    requires absolute != [] && absolute[0] == '/'
    ensures |Normal(absolute)| <= |absolute|
  {
    TokensWeight(Separators(absolute));
    ResolveWeight(Tokens(Separators(absolute)));
  }
}
