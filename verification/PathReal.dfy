/**
 `syseba_path_real` (src/platform.c) on C buffers: the output buffer may be the
 input buffer, nothing is written at or beyond `size`, and the array of parts
 is never overrun.
 */
module PathReal {
  import opened Wrappers
  import opened PathText

  const PATH_MAX := 4096

  const NUL: char := 0 as char

  ghost predicate IsCString(buffer: seq<char>) {
    NUL in buffer
  }

  /** The text in front of the first terminator. */
  function CText(buffer: seq<char>): (s: string)
    ensures NUL !in s && |s| <= |buffer| && s == buffer[..|s|]
    ensures |s| < |buffer| ==> buffer[|s|] == NUL
    ensures NUL in buffer ==> |s| < |buffer|
  {
    if buffer == [] || buffer[0] == NUL then [] else [buffer[0]] + CText(buffer[1..])
  }

  lemma {:induction false} CTextIs(buffer: seq<char>, s: string)
    requires |s| < |buffer| && buffer[..|s|] == s && buffer[|s|] == NUL && NUL !in s
    ensures CText(buffer) == s
  {
    if s != [] {
      assert buffer[0] == s[0] && s[0] in s;
      assert buffer[1..][..|s| - 1] == s[1..];
      CTextIs(buffer[1..], s[1..]);
    }
  }

  /** The text that is normalised: the path itself, or the path below the working directory. */
  function Absolute(path: string, cwd: Option<string>): Option<string> {
    if path != [] && path[0] == '/' then Some(path)
    else if cwd == None then None
    else Some(cwd.value + "/" + path)
  }

  /** Where a path text leads: from the root if it starts with a slash, and from the working directory otherwise. */
  function LeadsTo(path: string, cwd: Option<string>): seq<string> {
    var tokens := Tokens(Separators(path));
    if path != [] && path[0] == '/' then Follow([], tokens)
    else Follow(if cwd.Some? then Components(cwd.value) else [], tokens)
  }

  lemma AbsoluteLeads(path: string, cwd: Option<string>)
    requires Absolute(path, cwd).Some?
    ensures Components(Absolute(path, cwd).value) == LeadsTo(path, cwd)
  {
    if path != [] && path[0] == '/' {
      ResolveIsFollowing([], Tokens(Separators(path)));
      assert [] + Tokens(Separators(path)) == Tokens(Separators(path));
    } else {
      SeparatorsJoin(cwd.value, path);
      TokensOfJoin(Separators(cwd.value), Separators(path));
      ResolveIsFollowing(Tokens(Separators(cwd.value)), Tokens(Separators(path)));
    }
  }

  /** The call succeeds exactly when both texts fit. */
  predicate Fits(absolute: Option<string>, size: nat) {
    absolute.Some? && |absolute.value| < PATH_MAX && |Normal(absolute.value)| < size
  }

  /** The limits, in characters: 4095 for the text that is normalised, and one less than the buffer for the result. */
  lemma FitsIff(absolute: string, size: nat)
    ensures Fits(Some(absolute), size) <==> |absolute| <= 4095 && |Text(Components(absolute))| + 1 <= size
    ensures !Fits(None, size)
  {
  }

  /** The end of the token that starts at `start`. */
  method TokenEnd(text: string, start: nat) returns (end: nat)
    requires start < |text| && text[start] != '/'
    ensures start < end <= |text| && end - start == RunLength(text[start..])
    ensures Tokens(text[start..]) == [text[start..end]] + Tokens(text[end..])
  {
    end := start;
    ghost var run := RunLength(text[start..]);
    while end < |text| && text[end] != '/'
      invariant start <= end <= |text| && end - start <= run
    {
      assert text[end] == text[start..][end - start];
      end := end + 1;
    }
    assert end < |text| ==> text[end] == text[start..][end - start];
    assert text[start..][..run] == text[start..end] && text[start..][run..] == text[end..];
  }

  /** One token on the stack of parts. */
  method EnterPart(parts: array<string>, count: nat, token: string) returns (n: nat)
    requires count < parts.Length
    modifies parts
    ensures n <= count + 1 && parts[..n] == Enter(old(parts[..count]), token)
  {
    n := count;
    if token == "." || token == "" {
    } else if token == ".." {
      if n > 0 {
        n := n - 1;
      }
    } else {
      parts[n] := token;
      n := n + 1;
    }
  }

  method SplitParts(text: string, parts: array<string>) returns (count: nat)
    requires text != [] && text[0] == '/' && |text| < PATH_MAX && parts.Length == PATH_MAX / 2
    modifies parts
    ensures count <= parts.Length && parts[..count] == Resolve(Tokens(text))
  {
    count := 0;
    var i := 1;
    ghost var all, j := Tokens(text[1..]), 0;
    TokensAreTokens(text[1..]);
    while i < |text|
      invariant 1 <= i <= |text| && count <= j <= |all| < parts.Length
      invariant Tokens(text[i..]) == all[j..]
      invariant parts[..count] == Resolve(all[..j])
      decreases |text| - i
    {
      if text[i] == '/' {
        assert text[i..][1..] == text[i + 1..];
        i := i + 1;
      } else {
        var end := TokenEnd(text, i);
        TokenTaken(all, j, text[i..end], Tokens(text[end..]));
        count := EnterPart(parts, count, text[i..end]);
        j := j + 1;
        i := end;
      }
    }
    assert text[i..] == [];
    assert all[..j] == all;
  }

  lemma TokenTaken(all: seq<string>, j: nat, token: string, rest: seq<string>)
    requires j <= |all| && all[j..] == [token] + rest
    ensures j < |all| && rest == all[j + 1..]
    ensures Resolve(all[..j + 1]) == Enter(Resolve(all[..j]), token)
  {
    assert all[j] == all[j..][0] && rest == all[j..][1..];
    assert all[..j + 1][..j] == all[..j];
  }

  lemma TextNext(parts: seq<string>, k: nat)
    requires Canonical(parts) && k < |parts|
    ensures Text(parts[..k + 1]) == (if k == 0 then "/" else Text(parts[..k]) + "/") + parts[k]
    ensures k == 0 ==> Text(parts[..k]) == "/"
    ensures |Text(parts[..k + 1])| <= |Text(parts)|
  {
    assert parts[..k + 1][..k] == parts[..k];
    SlashedAppend(parts[..k + 1], parts[k + 1..]);
    assert parts[..k + 1] + parts[k + 1..] == parts;
  }

  /** Writes the parts into the buffer, with a running index. */
  method WriteParts(parts: seq<string>, output: array<char>, size: nat) returns (ok: bool)
    requires Canonical(parts) && size <= output.Length
    modifies output
    ensures ok <==> |Text(parts)| < size
    ensures ok ==> output[..|Text(parts)|] == Text(parts) && output[|Text(parts)|] == NUL
    ensures forall i :: size <= i < output.Length ==> output[i] == old(output[i])
  {
    TextLength(parts);
    if size < 2 {
      if size == 1 {
        output[0] := NUL;
      }
      return false;
    }
    output[0], output[1] := '/', NUL;
    var used := 1;
    assert parts[..0] == [];
    for k := 0 to |parts|
      invariant used == |Text(parts[..k])| < size
      invariant output[..used] == Text(parts[..k]) && output[used] == NUL
      invariant forall i :: size <= i < output.Length ==> output[i] == old(output[i])
    {
      ok, used := WritePart(parts, k, output, size, used);
      if !ok {
        return;
      }
    }
    assert parts[..|parts|] == parts;
    return true;
  }

  /** One round of that loop. */
  method WritePart(parts: seq<string>, k: nat, output: array<char>, size: nat, at: nat) returns (ok: bool, used: nat)
    requires Canonical(parts) && k < |parts| && size <= output.Length
    requires at == |Text(parts[..k])| < size && output[..at] == Text(parts[..k])
    modifies output
    ensures !ok ==> |Text(parts)| >= size
    ensures ok ==> used == |Text(parts[..k + 1])| < size && output[used] == NUL
    ensures ok ==> output[..used] == Text(parts[..k + 1])
    ensures forall i :: size <= i < output.Length ==> output[i] == old(output[i])
  {
    TextNext(parts, k);
    assert Canonical(parts[..k]);
    TextFacts(parts[..k]);
    var separator := output[at - 1] != '/';
    assert separator <==> k > 0 by {
      assert output[at - 1] == output[..at][at - 1];
    }
    if at + (if separator then 1 else 0) + |parts[k]| + 1 > size {
      return false, at;
    }
    used := AppendPart(output, at, separator, parts[k]);
    ok := true;
  }

  method AppendPart(output: array<char>, at: nat, separator: bool, part: string) returns (used: nat)
    requires at + |part| + 2 <= output.Length || (!separator && at + |part| + 1 <= output.Length)
    modifies output
    ensures used == at + (if separator then 1 else 0) + |part|
    ensures output[..used] == old(output[..at]) + (if separator then "/" else "") + part && output[used] == NUL
    ensures forall i :: used < i < output.Length ==> output[i] == old(output[i])
  {
    used := at;
    if separator {
      output[used] := '/';
      used := used + 1;
      assert output[..used] == old(output[..at]) + "/";
    }
    CopyText(output, used, part);
    used := used + |part|;
    output[used] := NUL;
  }

  lemma TextLength(parts: seq<string>)
    ensures |Text(parts)| >= 1
  {
  }

  /** `memcpy` into the buffer. */
  method CopyText(output: array<char>, at: nat, text: string)
    requires at + |text| <= output.Length
    modifies output
    ensures output[..at + |text|] == old(output[..at]) + text
    ensures forall i :: at + |text| <= i < output.Length ==> output[i] == old(output[i])
  {
    for j := 0 to |text|
      invariant output[..at] == old(output[..at]) && output[at..at + j] == text[..j]
      invariant forall i :: at + j <= i < output.Length ==> output[i] == old(output[i])
    {
      output[at + j] := text[j];
    }
  }

  /** `syseba_path_real`.  `path` and `output` may be the same buffer. */
  method Real(path: array<char>, cwd: Option<string>, output: array<char>, size: nat) returns (ok: bool)
    requires IsCString(path[..]) && size <= output.Length
    requires cwd.Some? ==> cwd.value != [] && cwd.value[0] == '/' && NUL !in cwd.value
    modifies output
    ensures ok <==> Fits(Absolute(CText(old(path[..])), cwd), size)
    ensures ok ==> CText(output[..]) == Normal(Absolute(CText(old(path[..])), cwd).value)
    ensures ok ==> CText(output[..]) == Text(LeadsTo(CText(old(path[..])), cwd))
    ensures forall i :: size <= i < output.Length ==> output[i] == old(output[i])
  {
    var text := CText(path[..]);
    ghost var given := text;
    if text == [] || text[0] != '/' {
      if cwd == None {
        return false;
      }
      text := cwd.value + "/" + text;
    }
    if |text| >= PATH_MAX {
      return false;
    }
    var clean := Separators(text);
    var parts := new string[PATH_MAX / 2](_ => "");
    var count := SplitParts(clean, parts);
    ghost var absolute := text;
    NormalIsCanonical(absolute);
    ok := WriteParts(parts[..count], output, size);
    if ok {
      AbsoluteLeads(given, cwd);
      TextHasNoNul(absolute);
      CTextIs(output[..], Normal(absolute));
    }
  }

  lemma {:induction false} SlashedChars(parts: seq<string>, c: char)
    requires c != '/' && forall p :: p in parts ==> c !in p
    ensures c !in Slashed(parts)
  {
    if parts != [] {
      SlashedChars(parts[..|parts| - 1], c);
      assert parts[|parts| - 1] in parts;
    }
  }

  lemma {:induction false} ResolveChars(tokens: seq<string>, c: char)
    requires forall t :: t in tokens ==> c !in t
    ensures forall p :: p in Resolve(tokens) ==> c !in p
  {
    if tokens != [] {
      ResolveChars(tokens[..|tokens| - 1], c);
      assert tokens[|tokens| - 1] in tokens;
    }
  }

  lemma TextHasNoNul(absolute: string)
    requires NUL !in absolute
    ensures NUL !in Normal(absolute)
  {
    var clean := Separators(absolute);
    assert NUL !in clean by {
      forall i | 0 <= i < |clean|
        ensures clean[i] != NUL
      {
        assert absolute[i] in absolute;
      }
    }
    TokensAreTokens(clean);
    ResolveChars(Tokens(clean), NUL);
    SlashedChars(Components(absolute), NUL);
  }
}
