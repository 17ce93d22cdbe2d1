/** What loading a configuration means, apart from the code that does it: where its paths lead, and what each line of
    the text does (src/config.c). */
module ConfigReading {
  import opened Wrappers
  import opened PathText
  import opened PathReal
  import opened Containment
  import opened Separation
  import opened Ascii
  import opened ConfigText
  import Decimal

  // ---------------------------------------------------------------------------
  // Paths
  // ---------------------------------------------------------------------------

  /** Where a configured path leads: from the root, or from the directory of the configuration file. */
  function SettingLeads(directory: seq<string>, value: string): seq<string> {
    Follow(if value != [] && value[0] == '/' then [] else directory, Tokens(Separators(value)))
  }

  lemma ResolvedSetting(disk: Disk, directory: seq<string>, value: string)
    requires Canonical(directory) && ResolveConfigPath(disk, Text(directory), value).Some?
    ensures var r := ResolveConfigPath(disk, Text(directory), value).value;
            r == Text(SettingLeads(directory, value)) && Components(r) == SettingLeads(directory, value)
  {
    if value != [] && value[0] == '/' {
      RealTextLeads(value, disk.cwd, PATH_MAX);
    } else {
      var combined := Text(directory) + "/" + value;
      TextFacts(directory);
      RealTextLeads(combined, disk.cwd, PATH_MAX);
      FollowedText(directory, value);
    }
  }

  lemma FollowedText(directory: seq<string>, value: string)
    requires Canonical(directory)
    ensures Follow([], Tokens(Separators(Text(directory) + "/" + value)))
            == Follow(directory, Tokens(Separators(value)))
  {
    TextFacts(directory);
    SeparatorsSame(Text(directory));
    SeparatorsJoin(Text(directory), value);
    TokensOfJoin(Text(directory), Separators(value));
    TokensOfText(directory);
    FollowInParts([], directory, Tokens(Separators(value)));
    FollowComponents([], directory);
    assert [] + directory == directory;
  }

  lemma {:induction false} FollowInParts(from: seq<string>, a: seq<string>, b: seq<string>)
    ensures Follow(from, a + b) == Follow(Follow(from, a), b)
    decreases |a|
  {
    if a == [] {
      assert a + b == b;
    } else {
      assert (a + b)[1..] == a[1..] + b;
      FollowInParts(Enter(from, a[0]), a[1..], b);
    }
  }

  lemma {:induction false} FollowComponents(from: seq<string>, parts: seq<string>)
    requires Canonical(parts)
    ensures Follow(from, parts) == from + parts
    decreases |parts|
  {
    if parts == [] {
      assert from + parts == from;
    } else {
      assert IsComponent(parts[0]) && Canonical(parts[1..]);
      FollowComponents(from + [parts[0]], parts[1..]);
      assert (from + [parts[0]]) + parts[1..] == from + parts;
    }
  }

  function Directory(parts: seq<string>): seq<string> {
    if parts == [] then [] else parts[..|parts| - 1]
  }

  lemma DirectoryText(parts: seq<string>)
    requires Canonical(parts)
    ensures Canonical(Directory(parts)) && ParentDir(Text(parts)) == Text(Directory(parts))
  {
    ParentOfText(parts);
  }

  lemma DirectoryOfFile(disk: Disk, path: string)
    requires RealText(path, disk.cwd, PATH_MAX).Some?
    ensures var file, r := LeadsTo(path, disk.cwd), RealText(path, disk.cwd, PATH_MAX).value;
            Components(r) == file && Canonical(Directory(file)) && ParentDir(r) == Text(Directory(file))
  {
    var r := RealText(path, disk.cwd, PATH_MAX).value;
    assert Components(r) == LeadsTo(path, disk.cwd) && r == Text(Components(r)) by {
      RealTextLeads(path, disk.cwd, PATH_MAX);
    }
    assert Canonical(Components(r)) by {
      NormalIsCanonical(r);
    }
    DirectoryText(Components(r));
  }

  /** A loaded configuration has the paths that its settings lead to, from the directory of its file, and the number of
      threads that was read; no setting was empty, and the section was there. */
  lemma LoadedPaths(disk: Disk, path: string, text: string)
    requires LoadText(disk, path, text).Loaded?
    ensures ReadText(DEFAULTS, text, true).Some?
    ensures var c, p := LoadText(disk, path, text).config, ReadText(DEFAULTS, text, true).value;
            var file := LeadsTo(path, disk.cwd);
            && Components(c.configPath) == file && c.threads == p.threads && p.found
            && p.source != "" && Components(c.source) == SettingLeads(Directory(file), p.source)
            && p.backup != "" && Components(c.backup) == SettingLeads(Directory(file), p.backup)
            && p.restore != "" && Components(c.restore) == SettingLeads(Directory(file), p.restore)
            && p.log != "" && Components(c.logFile) == SettingLeads(Directory(file), p.log)
  {
    var p, file := ReadText(DEFAULTS, text, true).value, LeadsTo(path, disk.cwd);
    DirectoryOfFile(disk, path);
    ResolvedSetting(disk, Directory(file), p.source);
    ResolvedSetting(disk, Directory(file), p.backup);
    ResolvedSetting(disk, Directory(file), p.restore);
    ResolvedSetting(disk, Directory(file), p.log);
  }

  // ---------------------------------------------------------------------------
  // White space
  // ---------------------------------------------------------------------------

  /** The six white-space characters of the C locale, by their codes. */
  predicate Blank(c: char) {
    c as int in {9, 10, 11, 12, 13, 32}
  }

  predicate AllBlank(s: string) {
    forall i :: 0 <= i < |s| ==> Blank(s[i])
  }

  lemma {:induction false} TrimLeftCuts(s: string) returns (blank: string)
    ensures s == blank + TrimLeft(s) && AllBlank(blank)
    ensures TrimLeft(s) == [] || !Blank(TrimLeft(s)[0])
  {
    blank := [];
    if s != [] && IsSpace(s[0]) {
      var rest := TrimLeftCuts(s[1..]);
      blank := [s[0]] + rest;
    }
  }

  lemma {:induction false} TrimRightCuts(s: string) returns (blank: string)
    ensures s == TrimRight(s) + blank && AllBlank(blank)
    ensures TrimRight(s) == [] || !Blank(TrimRight(s)[|TrimRight(s)| - 1])
  {
    blank := [];
    if s != [] && IsSpace(s[|s| - 1]) {
      var rest := TrimRightCuts(s[..|s| - 1]);
      blank := rest + [s[|s| - 1]];
    }
  }

  /** Trimming cuts off exactly the white space at both ends. */
  lemma TrimmedCuts(s: string) returns (before: string, after: string)
    ensures s == before + Trimmed(s) + after && AllBlank(before) && AllBlank(after)
    ensures Trimmed(s) != [] ==> !Blank(Trimmed(s)[0]) && !Blank(Trimmed(s)[|Trimmed(s)| - 1])
  {
    before := TrimLeftCuts(s);
    after := TrimRightCuts(TrimLeft(s));
    TrimRightFacts(TrimLeft(s));
  }

  // ---------------------------------------------------------------------------
  // Texts made of lines
  // ---------------------------------------------------------------------------

  /** A text that ends where a line ends. */
  predicate WholeLines(a: string) {
    a == [] || a[|a| - 1] == '\n'
  }

  lemma {:induction false} LineWithin(a: string, b: string, room: nat)
    requires a != [] && WholeLines(a)
    ensures LineLength(a + b, room) == LineLength(a, room)
    decreases |a|
  {
    if room > 0 && a[0] != '\n' {
      assert (a + b)[1..] == a[1..] + b;
      LineWithin(a[1..], b, room - 1);
    }
  }

  lemma {:induction false} NewlineEndsLine(a: string, room: nat)
    requires a != [] && WholeLines(a)
    ensures '\n' !in a[..LineLength(a, room)] ==> LineLength(a, room) < |a|
    decreases |a|
  {
    if LineLength(a, room) == |a| {
      assert a[..|a|] == a && a[|a| - 1] in a;
    }
  }

  /** Reading a text is reading its first lines and then the others. */
  lemma {:induction false} ReadInParts(p: Parse, a: string, b: string, first: bool)
    requires WholeLines(a)
    ensures ReadText(p, a + b, first) ==
            match ReadText(p, a, first) { case None => None case Some(q) => ReadText(q, b, first && a == []) }
    decreases |a|
  {
    if a == [] {
      assert a + b == b;
    } else {
      var n := LineLength(a, LINE_ROOM);
      LineWithin(a, b, LINE_ROOM);
      NewlineEndsLine(a, LINE_ROOM);
      assert (a + b)[..n] == a[..n] && (a + b)[n..] == a[n..] + b;
      assert WholeLines(a[n..]);
      var line := a[..n];
      var read := ReadLine(p, if first && Bom(line) then line[3..] else line);
      if read.Some? {
        ReadInParts(read.value, a[n..], b, false);
      }
    }
  }

  /** A line that fits, in the middle of a text. */
  predicate IsLine(line: string) {
    '\n' !in line && |line| < LINE_ROOM && !Bom(line + "\n")
  }

  /** What a line does after the lines `a` and before the text `b`. */
  lemma ReadLineBetween(p: Parse, a: string, line: string, b: string, first: bool)
    requires WholeLines(a) && a != [] && IsLine(line)
    ensures ReadText(p, a + (line + "\n" + b), first) ==
            match ReadText(p, a, first)
            case None => None
            case Some(q) =>
              match ReadLine(q, line + "\n")
              case None => None
              case Some(r) => ReadText(r, b, false)
  {
    ReadInParts(p, a, line + "\n" + b, first);
    if ReadText(p, a, first).Some? {
      ReadNext(ReadText(p, a, first).value, line, b, false);
    }
  }

  // ---------------------------------------------------------------------------
  // What lines do
  // ---------------------------------------------------------------------------

  /** Blank lines and comments change nothing, wherever they stand. */
  lemma CommentsAreIgnored(p: Parse, a: string, line: string, b: string, first: bool)
    requires WholeLines(a) && a != [] && IsLine(line)
    requires Trimmed(line + "\n") == "" || Trimmed(line + "\n")[0] == '#' || Trimmed(line + "\n")[0] == ';'
    ensures ReadText(p, a + (line + "\n" + b), first) == ReadText(p, a + b, first)
  {
    ReadLineBetween(p, a, line, b, first);
    ReadInParts(p, a, b, first);
  }

  /** Outside of the section, whatever is no header changes nothing. */
  lemma OtherSectionsAreIgnored(p: Parse, a: string, line: string, b: string, first: bool)
    requires WholeLines(a) && a != [] && IsLine(line)
    requires ReadText(p, a, first).Some? && !ReadText(p, a, first).value.settings
    requires Trimmed(line + "\n") == "" || Trimmed(line + "\n")[0] != '['
    ensures ReadText(p, a + (line + "\n" + b), first) == ReadText(p, a + b, first)
  {
    ReadLineBetween(p, a, line, b, first);
    ReadInParts(p, a, b, first);
  }

  /** A header opens the section exactly if its name is `settings` in any case, and closes it otherwise. */
  lemma HeaderSwitches(p: Parse, name: string)
    requires ']' !in name && '\n' !in name
    ensures ReadLine(p, "[" + name + "]" + "\n")
            == Some(p.(settings := Lower(name) == "settings", found := p.found || Lower(name) == "settings"))
  {
    var line, trimmed := "[" + name + "]" + "\n", "[" + name + "]";
    assert TrimLeft(line) == line;
    assert line[..|line| - 1] == trimmed && TrimRight(trimmed) == trimmed;
    assert Trimmed(line) == trimmed;
    IndexOfAfter("[" + name, ']', "");
    assert "[" + name + [']'] + "" == trimmed;
    assert trimmed[1..|name| + 1] == name;
  }

  /** A line of the section without an equals sign is refused. */
  lemma NoEqualsIsRefused(p: Parse, a: string, line: string, b: string, first: bool)
    requires WholeLines(a) && a != [] && IsLine(line) && '=' !in line
    requires ReadText(p, a, first).Some? ==> ReadText(p, a, first).value.settings
    requires Trimmed(line + "\n") != "" && Trimmed(line + "\n")[0] !in "#;["
    ensures ReadText(p, a + (line + "\n" + b), first) == None
  {
    ReadLineBetween(p, a, line, b, first);
    var before, after := TrimmedCuts(line + "\n");
    var trimmed := Trimmed(line + "\n");
    assert '=' !in trimmed by {
      forall i | 0 <= i < |trimmed|
        ensures trimmed[i] != '='
      {
        assert (line + "\n")[|before| + i] == trimmed[i];
        assert (line + "\n")[|before| + i] in line + "\n";
      }
    }
    assert IndexOf(trimmed, '=') == |trimmed|;
  }

  /** Text in front of an equals sign that can be a key. */
  predicate CanBeKey(k: string) {
    '=' !in k && Trimmed(k) != "" && Trimmed(k)[0] !in "#;["
  }

  lemma {:induction false} TrimLeftAppend(a: string, b: string)
    requires TrimLeft(a) != []
    ensures TrimLeft(a + b) == TrimLeft(a) + b
  {
    if IsSpace(a[0]) {
      assert (a + b)[1..] == a[1..] + b;
      TrimLeftAppend(a[1..], b);
    }
  }

  lemma {:induction false} TrimRightAfter(a: string, b: string)
    requires a != [] && !IsSpace(a[|a| - 1])
    ensures TrimRight(a + b) == a + TrimRight(b)
    decreases |b|
  {
    if b == [] {
      assert a + b == a;
    } else if IsSpace(b[|b| - 1]) {
      assert (a + b)[..|a + b| - 1] == a + b[..|b| - 1];
      TrimRightAfter(a, b[..|b| - 1]);
    }
  }

  lemma {:induction false} TrimTwice(s: string)
    ensures TrimRight(TrimRight(s)) == TrimRight(s) && TrimLeft(TrimLeft(s)) == TrimLeft(s)
    decreases |s|
  {
    TrimRightFacts(s);
    if s != [] && IsSpace(s[0]) {
      TrimTwice(s[1..]);
    }
  }

  lemma {:induction false} TrimLeftOfRight(s: string)
    ensures Trimmed(TrimRight(s)) == Trimmed(s)
    decreases |s|
  {
    if s != [] && IsSpace(s[|s| - 1]) {
      var front := s[..|s| - 1];
      TrimLeftOfRight(front);
      assert s == front + [s[|s| - 1]];
      if TrimLeft(front) == [] {
        AllSpaceThen(front, s[|s| - 1]);
      } else {
        TrimLeftAppend(front, [s[|s| - 1]]);
        var t := TrimLeft(front) + [s[|s| - 1]];
        assert t[..|t| - 1] == TrimLeft(front);
      }
    }
  }

  lemma {:induction false} AllSpaceThen(a: string, c: char)
    requires TrimLeft(a) == [] && IsSpace(c)
    ensures TrimLeft(a + [c]) == []
    decreases |a|
  {
    if a == [] {
      assert a + [c] == [c];
    } else {
      assert (a + [c])[1..] == a[1..] + [c];
      AllSpaceThen(a[1..], c);
    }
  }

  lemma KeyLeft(k: string)
    requires CanBeKey(k)
    ensures TrimLeft(k) != [] && '=' !in TrimLeft(k) && TrimLeft(k)[0] == Trimmed(k)[0]
    ensures Trimmed(TrimLeft(k)) == Trimmed(k)
  {
    var blank := TrimLeftCuts(k);
    var key := TrimLeft(k);
    assert TrimRight([]) == [];
    forall i | 0 <= i < |key|
      ensures key[i] != '='
    {
      assert key[i] == k[|blank| + i] && k[|blank| + i] in k;
    }
    TrimRightFacts(key);
    TrimTwice(k);
  }

  lemma TrimmedSetting(k: string, v: string)
    requires TrimLeft(k) != []
    ensures Trimmed(k + "=" + v) == TrimLeft(k) + ['='] + TrimRight(v)
  {
    var key := TrimLeft(k);
    assert k + "=" + v == k + ("=" + v);
    TrimLeftAppend(k, "=" + v);
    assert key + ("=" + v) == (key + "=") + v;
    TrimRightAfter(key + "=", v);
  }

  /** A setting is read by its key in lower case and its value, both trimmed, whatever stands around them. */
  lemma SettingIsRead(p: Parse, k: string, v: string)
    requires p.settings && CanBeKey(k)
    ensures ReadLine(p, k + "=" + v) == Assign(p, Lower(Trimmed(k)), Trimmed(v))
  {
    var key, value := TrimLeft(k), TrimRight(v);
    KeyLeft(k);
    TrimmedSetting(k, v);
    IndexOfAfter(key, '=', value);
    var trimmed := key + ['='] + value;
    assert trimmed[..|key|] == key && trimmed[|key| + 1..] == value && trimmed[0] == key[0];
    TrimLeftOfRight(v);
  }

  /** Keys match in any case. */
  lemma KeysMatchInAnyCase(p: Parse, k: string, k': string, v: string)
    requires p.settings && CanBeKey(k) && CanBeKey(k') && Lower(Trimmed(k)) == Lower(Trimmed(k'))
    ensures ReadLine(p, k + "=" + v) == ReadLine(p, k' + "=" + v)
  {
    SettingIsRead(p, k, v);
    SettingIsRead(p, k', v);
  }

  /** Folding turns exactly the capital letters into small ones. */
  lemma LowerFolds(s: string)
    ensures |Lower(s)| == |s|
    ensures forall i :: 0 <= i < |s| ==>
              Lower(s)[i] as int == if 65 <= s[i] as int <= 90 then s[i] as int + 32 else s[i] as int
  {
  }

  /** Each of the five keys sets its own value and no other. */
  lemma EachKeySetsItsOwn(p: Parse, v: string)
    requires |v| < PATH_MAX
    ensures Assign(p, "source", v) == Some(p.(source := v)) && Assign(p, "backup", v) == Some(p.(backup := v))
    ensures Assign(p, "restore", v) == Some(p.(restore := v)) && Assign(p, "log", v) == Some(p.(log := v))
    ensures ParseThreads(v).Some? ==> Assign(p, "threads", v) == Some(p.(threads := ParseThreads(v).value))
    ensures ParseThreads(v).None? ==> Assign(p, "threads", v) == None
  {
    assert "source"[0] == 's' && "backup"[0] == 'b' && "restore"[0] == 'r' && "log"[0] == 'l' && "threads"[0] == 't';
  }

  lemma AssignTwice(p: Parse, key: string, v: string, w: string)
    requires Assign(p, key, v).Some?
    ensures Assign(p, key, v).value.settings == p.settings
    ensures Assign(Assign(p, key, v).value, key, w) == Assign(p, key, w)
  {
  }

  /** Of two settings of the same key, one after the other, the last one wins. */
  lemma LastSettingWins(p: Parse, a: string, k: string, v: string, k': string, w: string, b: string, first: bool)
    requires WholeLines(a) && a != [] && IsLine(k + "=" + v) && IsLine(k' + "=" + w)
    requires CanBeKey(k) && CanBeKey(k') && Lower(Trimmed(k)) == Lower(Trimmed(k'))
    requires ReadText(p, a, first).Some? && ReadText(p, a, first).value.settings
    requires Assign(ReadText(p, a, first).value, Lower(Trimmed(k)), Trimmed(v)).Some?
    ensures ReadText(p, a + ((k + "=" + v) + "\n" + ((k' + "=" + w) + "\n" + b)), first)
            == ReadText(p, a + ((k' + "=" + w) + "\n" + b), first)
  {
    var q, key := ReadText(p, a, first).value, Lower(Trimmed(k));
    ReadLineBetween(p, a, k + "=" + v, (k' + "=" + w) + "\n" + b, first);
    ReadLineBetween(p, a, k' + "=" + w, b, first);
    SettingWithNewline(q, k, v);
    var r := Assign(q, key, Trimmed(v)).value;
    AssignTwice(q, key, Trimmed(v), Trimmed(w));
    SettingWithNewline(r, k', w);
    SettingWithNewline(q, k', w);
    ReadNext(r, k' + "=" + w, b, false);
  }

  lemma SettingWithNewline(p: Parse, k: string, v: string)
    requires p.settings && CanBeKey(k)
    ensures ReadLine(p, (k + "=" + v) + "\n") == Assign(p, Lower(Trimmed(k)), Trimmed(v))
  {
    assert (k + "=" + v) + "\n" == k + "=" + (v + "\n");
    SettingIsRead(p, k, v + "\n");
    TrimLeftOfRight(v + "\n");
    TrimLeftOfRight(v);
    assert (v + "\n")[..|v|] == v;
  }

  /** The line is a setting of the key with that value. */
  ghost predicate SetsKey(line: string, key: string, value: string) {
    exists k, v :: Trimmed(line) == k + "=" + v && Lower(Trimmed(k)) == key && Trimmed(v) == value
  }

  function Field(p: Parse, key: string): string {
    if key == "source" then p.source else if key == "backup" then p.backup
    else if key == "restore" then p.restore else p.log
  }

  lemma AssignChangesItsKey(p: Parse, k: string, value: string, key: string)
    requires Assign(p, k, value).Some? && key in ["source", "backup", "restore", "log"]
    ensures var q := Assign(p, k, value).value;
            Field(q, key) != Field(p, key) ==> k == key && Field(q, key) == value
  {
  }

  /** A line changes a path only if it is a setting of that key in the section. */
  lemma OnlyItsKeyChanges(p: Parse, line: string, key: string)
    requires ReadLine(p, line).Some? && key in ["source", "backup", "restore", "log"]
    ensures Field(ReadLine(p, line).value, key) != Field(p, key) ==>
              p.settings && SetsKey(line, key, Field(ReadLine(p, line).value, key))
  {
    var trimmed := Trimmed(line);
    var separator := IndexOf(trimmed, '=');
    if separator < |trimmed| {
      var k, v := trimmed[..separator], trimmed[separator + 1..];
      assert trimmed == k + "=" + v;
      if Assign(p, Lower(Trimmed(k)), Trimmed(v)).Some? {
        AssignChangesItsKey(p, Lower(Trimmed(k)), Trimmed(v), key);
      }
    }
  }

  /** A path that no part of the text sets keeps its default. */
  lemma {:induction false} UnsetStays(p: Parse, text: string, first: bool, key: string)
    requires ReadText(p, text, first).Some? && key in ["source", "backup", "restore", "log"]
    requires forall i, j :: 0 <= i <= j <= |text| ==> !(exists value :: SetsKey(text[i..j], key, value))
    ensures Field(ReadText(p, text, first).value, key) == Field(p, key)
    decreases |text|
  {
    if text != [] {
      var n := LineLength(text, LINE_ROOM);
      var i := if first && Bom(text[..n]) then 3 else 0;
      assert text[..n][i..] == text[i..n] && (i == 0 ==> text[i..n] == text[..n]);
      var q := ReadLine(p, text[i..n]).value;
      OnlyItsKeyChanges(p, text[i..n], key);
      forall a, b | 0 <= a <= b <= |text[n..]|
        ensures !(exists value :: SetsKey(text[n..][a..b], key, value))
      {
        assert text[n..][a..b] == text[n + a..n + b];
      }
      UnsetStays(q, text[n..], false, key);
    }
  }

  /** The section alone leaves every value at its default. */
  lemma DefaultsStay()
    ensures ReadText(DEFAULTS, "[SETTINGS]" + "\n" + "", true)
            == Some(Parse("/dati", "/backup", "/restore", "/var/log/syseba/syseba.log", 4, true, true))
  {
    ReadHeader(DEFAULTS);
    assert ("[SETTINGS]" + "\n")[0] == '[';
    ReadNext(DEFAULTS, "[SETTINGS]", "", true);
  }

  lemma {:induction false} NoHeaderNoSection(p: Parse, text: string, first: bool)
    requires '[' !in text && !p.found && !p.settings
    ensures ReadText(p, text, first) == None || ReadText(p, text, first) == Some(p)
    decreases |text|
  {
    if text != [] {
      var n := LineLength(text, LINE_ROOM);
      var line := text[..n];
      var clean := if first && Bom(line) then line[3..] else line;
      var before, after := TrimmedCuts(clean);
      assert forall i :: 0 <= i < |Trimmed(clean)| ==> Trimmed(clean)[i] == clean[|before| + i];
      assert forall i :: 0 <= i < |clean| ==> clean[i] in text;
      NoHeaderNoSection(p, text[n..], false);
    }
  }

  /** A file without the section is refused. */
  lemma NoSectionIsRefused(disk: Disk, path: string, text: string)
    requires '[' !in text
    ensures LoadText(disk, path, text) == Refused
  {
    NoHeaderNoSection(DEFAULTS, text, true);
  }

  /** A printed number of threads is accepted if and only if it lies between 1 and 64. */
  lemma ThreadsRange(n: nat)
    requires n < ULONG
    ensures ParseThreads(Decimal.Print(n)) == if 1 <= n <= 64 then Some(n) else None
  {
    Decimal.ParsePrint(n);
    assert Decimal.IsDigit(Decimal.Print(n)[0]);
  }

  /** A byte order mark in front of the text is skipped. */
  lemma BomIsSkipped(p: Parse, mark: string, a: string, rest: string)
    requires |mark| == 3 && mark[0] as int == 0xef && mark[1] as int == 0xbb && mark[2] as int == 0xbf
    requires '\n' !in a && |a| + 3 < LINE_ROOM && !Bom(a + "\n")
    ensures ReadText(p, mark + (a + "\n" + rest), true) == ReadText(p, a + "\n" + rest, true)
  {
    var line := mark + a;
    assert mark + (a + "\n" + rest) == line + "\n" + rest;
    assert '\n' !in mark by {
      assert forall i :: 0 <= i < 3 ==> mark[i] as int != 10;
    }
    LineLengthIs(line, rest, LINE_ROOM);
    var text := line + "\n" + rest;
    assert text[..|line| + 1] == line + "\n" && text[|line| + 1..] == rest;
    assert (line + "\n")[3..] == a + "\n" && '\n' in line + "\n";
    ReadNext(p, a, rest, true);
  }

  lemma {:induction false} LongLine(text: string, room: nat)
    requires |text| >= room && forall i :: 0 <= i < room ==> text[i] != '\n'
    ensures LineLength(text, room) == room
  {
    if room > 0 {
      LongLine(text[1..], room - 1);
    }
  }

  /** A line of 4223 characters or more is refused, unless the text ends there. */
  lemma LongLineIsRefused(p: Parse, text: string, first: bool)
    requires |text| > 4223 && forall i :: 0 <= i < 4223 ==> text[i] != '\n'
    ensures ReadText(p, text, first) == None
  {
    LongLine(text, LINE_ROOM);
  }

  /** A path of 4096 characters or more is refused. */
  lemma LongPathIsRefused(p: Parse, key: string, v: string)
    requires key in ["source", "backup", "restore", "log"] && |v| >= 4096
    ensures Assign(p, key, v) == None
  {
  }

  /** A plus sign does not matter; a minus sign wraps around at 64 bits, so that in practice it is refused. */
  lemma SignedThreads(digits: string)
    requires digits != [] && AllDigits(digits)
    ensures ParseThreads("+" + digits) == ParseThreads(digits)
    ensures var n := Decimal.Parse(digits);
            ParseThreads("-" + digits)
            == if 0xffff_ffff_ffff_ffc0 <= n < 0x1_0000_0000_0000_0000 then Some(0x1_0000_0000_0000_0000 - n)
               else None
  {
    assert Decimal.IsDigit(digits[0]);
    var plus, minus := "+" + digits, "-" + digits;
    assert plus[0] == '+' && plus[1..] == digits && minus[0] == '-' && minus[1..] == digits;
  }

  /** Anything but digits after the sign is refused, and so is nothing at all. */
  lemma OnlyNumbers(value: string, i: nat)
    requires value == "" || (0 < i < |value| && !('0' <= value[i] <= '9'))
    ensures ParseThreads(value) == None
  {
    if value != "" {
      var digits := if value[0] == '-' || value[0] == '+' then value[1..] else value;
      assert digits[if value[0] == '-' || value[0] == '+' then i - 1 else i] == value[i];
    }
  }

  /** Other keys are ignored. */
  lemma OtherKeysAreIgnored(p: Parse, key: string, v: string)
    requires key !in ["source", "backup", "restore", "log", "threads"]
    ensures Assign(p, key, v) == Some(p)
  {
    var keys := ["source", "backup", "restore", "log", "threads"];
    assert keys[0] in keys && keys[1] in keys && keys[2] in keys && keys[3] in keys && keys[4] in keys;
  }

  /** A header without its closing bracket is refused. */
  lemma OpenHeaderIsRefused(p: Parse, name: string)
    requires ']' !in name && '\n' !in name
    ensures ReadLine(p, "[" + name + "\n") == None
  {
    var line := "[" + name + "\n";
    assert TrimLeft(line) == line;
    TrimRightFacts(line);
    var trimmed := Trimmed(line);
    forall i | 0 <= i < |trimmed|
      ensures trimmed[i] != ']'
    {
      assert trimmed[i] == line[i];
      assert 0 < i <= |name| ==> line[i] == name[i - 1] && name[i - 1] in name;
    }
  }
}
