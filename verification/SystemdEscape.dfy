/** The two escapers for systemd unit arguments: the C loop (src/service_linux.c) and the shell
    function with four substitutions (scripts/syseba-maintenance.sh). */
module SystemdEscape {

  /** What one character becomes. */
  function Escaped(c: char): string {
    if c == '%' || c == '$' then [c, c]
    else if c == '\\' || c == '"' then ['\\', c]
    else [c]
  }

  function Escape(s: string): (r: string)
    ensures |s| <= |r| <= 2 * |s|
  {
    if s == [] then [] else Escaped(s[0]) + Escape(s[1..])
  }

  predicate IsControl(c: char) {
    c as int < 0x20 || c as int == 0x7f
  }

  predicate ControlFree(s: string) {
    forall i :: 0 <= i < |s| ==> !IsControl(s[i])
  }

  /** What is refused: characters below 32, such as a newline, and 127. */
  lemma ControlFreeIff(s: string)
    ensures ControlFree(s) <==> forall i :: 0 <= i < |s| ==> s[i] as int >= 32 && s[i] as int != 127
  {
  }

  lemma {:induction false} EscapeAppend(a: string, b: string)
    ensures Escape(a + b) == Escape(a) + Escape(b)
  {
    if a == [] {
      assert a + b == b;
    } else {
      assert (a + b)[1..] == a[1..] + b;
      EscapeAppend(a[1..], b);
    }
  }

  lemma EscapeNext(s: string, i: nat)
    requires i < |s|
    ensures Escape(s[..i + 1]) == Escape(s[..i]) + Escaped(s[i])
    ensures |Escape(s[..i + 1])| <= |Escape(s)|
  {
    assert s[..i + 1] == s[..i] + [s[i]] && s == s[..i + 1] + s[i + 1..];
    EscapeAppend(s[..i], [s[i]]);
    EscapeAppend(s[..i + 1], s[i + 1..]);
    assert Escape([s[i]]) == Escaped(s[i]) + Escape([]);
  }

  /** Writes what one character becomes. */
  method Put(output: array<char>, at: nat, c: char) returns (used: nat)
    requires at + |Escaped(c)| <= output.Length
    modifies output
    ensures used == at + |Escaped(c)| && output[..used] == old(output[..at]) + Escaped(c)
    ensures forall j :: used <= j < output.Length ==> output[j] == old(output[j])
  {
    used := at;
    if c == '%' || c == '$' {
      output[used] := c;
      used := used + 1;
    } else if c == '\\' || c == '"' {
      output[used] := '\\';
      used := used + 1;
    }
    output[used] := c;
    used := used + 1;
  }

  /** `syseba_systemd_escape`: the one-pass loop writes the escaped text and its terminator, exactly when the
      input has no control character and the text fits. */
  method EscapeInto(input: string, output: array<char>, size: nat) returns (ok: bool)
    requires size <= output.Length
    modifies output
    ensures ok <==> ControlFree(input) && |Escape(input)| < size
    ensures ControlFree(input) && |input| < 4096 && size == 8192 ==> ok
    ensures ok ==> output[..|Escape(input)|] == Escape(input) && output[|Escape(input)|] as int == 0
    ensures forall i :: size <= i < output.Length ==> output[i] == old(output[i])
  {
    if size == 0 {
      return false;
    }
    var used := 0;
    for i := 0 to |input|
      invariant used == |Escape(input[..i])| < size && output[..used] == Escape(input[..i])
      invariant forall j :: 0 <= j < i ==> !IsControl(input[j])
      invariant forall j :: size <= j < output.Length ==> output[j] == old(output[j])
    {
      EscapeNext(input, i);
      if IsControl(input[i]) || used + |Escaped(input[i])| >= size {
        return false;
      }
      used := Put(output, used, input[i]);
    }
    assert input[..|input|] == input;
    output[used] := 0 as char;
    return true;
  }

  // ---------------------------------------------------------------------------
  // Undoing it
  // ---------------------------------------------------------------------------

  function Unescape(s: string): string
    decreases |s|
  {
    if s == [] then []
    else if |s| >= 2 && (s[0] == '\\' || (s[0] == s[1] && (s[0] == '%' || s[0] == '$'))) then
      [s[1]] + Unescape(s[2..])
    else [s[0]] + Unescape(s[1..])
  }

  lemma {:induction false} UnescapeEscape(s: string)
    ensures Unescape(Escape(s)) == s
  {
    if s != [] {
      UnescapeEscape(s[1..]);
      var head, rest := Escaped(s[0]), Escape(s[1..]);
      assert (head + rest)[|head|..] == rest;
      assert s == [s[0]] + s[1..];
    }
  }

  /** Reading left to right, a backslash protects what follows it; no quote stands unprotected. */
  predicate QuotesProtected(s: string)
    decreases |s|
  {
    if s == [] then true
    else if s[0] == '\\' then |s| >= 2 && QuotesProtected(s[2..])
    else s[0] != '"' && QuotesProtected(s[1..])
  }

  lemma {:induction false} EscapeProtectsQuotes(s: string)
    ensures QuotesProtected(Escape(s))
  {
    if s != [] {
      EscapeProtectsQuotes(s[1..]);
      var head, rest := Escaped(s[0]), Escape(s[1..]);
      assert (head + rest)[|head|..] == rest;
      if |head| == 2 {
        assert (head + rest)[1..][1..] == rest;
      }
    }
  }

  // ---------------------------------------------------------------------------
  // The shell function
  // ---------------------------------------------------------------------------

  /** `${value//c/twin}` */
  function Substitute(s: string, c: char, twin: string): string {
    if s == [] then [] else (if s[0] == c then twin else [s[0]]) + Substitute(s[1..], c, twin)
  }

  /** `systemd_escape_argument` reassigns its value four times. */
  method ShellEscape(argument: string) returns (value: string)
    ensures value == Escape(argument)
  {
    value := argument;
    value := Substitute(value, '\\', "\\\\");
    value := Substitute(value, '"', "\\\"");
    value := Substitute(value, '%', "%%");
    value := Substitute(value, '$', "$$");
    FourSubstitutions(argument);
  }

  lemma {:induction false} SubstituteAppend(a: string, b: string, c: char, twin: string)
    ensures Substitute(a + b, c, twin) == Substitute(a, c, twin) + Substitute(b, c, twin)
  {
    if a == [] {
      assert a + b == b;
    } else {
      assert (a + b)[1..] == a[1..] + b;
      SubstituteAppend(a[1..], b, c, twin);
    }
  }

  function AllFour(s: string): string {
    Substitute(Substitute(Substitute(Substitute(s, '\\', "\\\\"), '"', "\\\""), '%', "%%"), '$', "$$")
  }

  lemma AllFourAppend(a: string, b: string)
    ensures AllFour(a + b) == AllFour(a) + AllFour(b)
  {
    SubstituteAppend(a, b, '\\', "\\\\");
    var a1, b1 := Substitute(a, '\\', "\\\\"), Substitute(b, '\\', "\\\\");
    SubstituteAppend(a1, b1, '"', "\\\"");
    var a2, b2 := Substitute(a1, '"', "\\\""), Substitute(b1, '"', "\\\"");
    SubstituteAppend(a2, b2, '%', "%%");
    SubstituteAppend(Substitute(a2, '%', "%%"), Substitute(b2, '%', "%%"), '$', "$$");
  }

  lemma SubstituteOne(x: char, c: char, twin: string)
    ensures Substitute([x], c, twin) == if x == c then twin else [x]
  {
    assert Substitute([x][1..], c, twin) == [];
  }

  lemma SubstituteTwo(x: char, y: char, c: char, twin: string)
    ensures Substitute([x, y], c, twin) == (if x == c then twin else [x]) + if y == c then twin else [y]
  {
    assert [x, y] == [x] + [y];
    SubstituteAppend([x], [y], c, twin);
    SubstituteOne(x, c, twin);
    SubstituteOne(y, c, twin);
  }

  lemma AllFourOne(x: char)
    ensures AllFour([x]) == Escaped(x)
  {
    SubstituteOne(x, '\\', "\\\\");
    SubstituteOne(x, '"', "\\\"");
    SubstituteOne(x, '%', "%%");
    SubstituteOne(x, '$', "$$");
    SubstituteTwo('\\', '\\', '"', "\\\"");
    SubstituteTwo('\\', '\\', '%', "%%");
    SubstituteTwo('\\', '\\', '$', "$$");
    SubstituteTwo('\\', '"', '%', "%%");
    SubstituteTwo('\\', '"', '$', "$$");
    SubstituteTwo('%', '%', '$', "$$");
  }

  /** The four whole-string substitutions do what the one-pass loop does. */
  lemma {:induction false} FourSubstitutions(s: string)
    ensures AllFour(s) == Escape(s)
  {
    if s != [] {
      FourSubstitutions(s[1..]);
      AllFourAppend([s[0]], s[1..]);
      AllFourOne(s[0]);
      assert s == [s[0]] + s[1..];
    }
  }

  /** What becomes of each character: the two that systemd expands are doubled, the two that end or escape a quoted
      text get a backslash, and all others stay. */
  lemma EscapedCharacters(c: char)
    ensures Escape("%") == "%%" && Escape("$") == "$$" && Escape("\"") == "\\\"" && Escape("\\") == "\\\\"
    ensures c !in "%$\"\\" ==> Escape([c]) == [c]
    ensures Escape("") == ""
  {
    assert "%"[1..] == "" && "$"[1..] == "" && "\""[1..] == "" && "\\"[1..] == "" && [c][1..] == "";
    assert '%' in "%$\"\\" && '$' in "%$\"\\" && '"' in "%$\"\\" && '\\' in "%$\"\\" by {
      assert "%$\"\\"[0] == '%' && "%$\"\\"[1] == '$' && "%$\"\\"[2] == '"' && "%$\"\\"[3] == '\\';
    }
  }
}
