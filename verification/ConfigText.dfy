/** The configuration file: printing it, and reading it back line by line (src/config.c). */
module ConfigText {
  import opened PathText
  import opened Wrappers
  import opened PathReal
  import opened Containment
  import opened Joining
  import opened Separation
  import opened Ascii
  import Decimal

  // ---------------------------------------------------------------------------
  // Characters and trimming
  // ---------------------------------------------------------------------------

  predicate IsSpace(c: char) {
    c == ' ' || c == '\t' || c == '\n' || c == '\r' || c as int == 11 || c as int == 12
  }

  function TrimLeft(s: string): string {
    if s != [] && IsSpace(s[0]) then TrimLeft(s[1..]) else s
  }

  function TrimRight(s: string): string {
    if s != [] && IsSpace(s[|s| - 1]) then TrimRight(s[..|s| - 1]) else s
  }

  /** `syseba_trim` */
  method Trim(s: string) returns (r: string)
    ensures r == Trimmed(s)
  {
    var start := 0;
    assert s[0..] == s;
    while start < |s| && IsSpace(s[start])
      invariant 0 <= start <= |s| && TrimLeft(s[start..]) == TrimLeft(s)
    {
      assert s[start..][1..] == s[start + 1..];
      start := start + 1;
    }
    var value := s[start..];
    var end := |value|;
    assert value[..end] == value;
    while end > 0 && IsSpace(value[end - 1])
      invariant 0 <= end <= |value| && TrimRight(value[..end]) == TrimRight(value)
    {
      assert value[..end][..end - 1] == value[..end - 1];
      end := end - 1;
    }
    return value[..end];
  }

  function Trimmed(s: string): string {
    TrimRight(TrimLeft(s))
  }

  /** `strchr`: the index of the first occurrence, or the length. */
  function IndexOf(s: string, c: char): (i: nat)
    ensures i <= |s| && (i < |s| ==> s[i] == c) && forall j :: 0 <= j < i ==> s[j] != c
  {
    if s == [] || s[0] == c then 0 else 1 + IndexOf(s[1..], c)
  }

  // ---------------------------------------------------------------------------
  // Numbers
  // ---------------------------------------------------------------------------

  const ULONG := 0x1_0000_0000_0000_0000

  predicate AllDigits(s: string) {
    forall i :: 0 <= i < |s| ==> Decimal.IsDigit(s[i])
  }

  /** `strtoul` on a trimmed value that it must use up: a sign wraps around, a value that does not fit
      is an error. */
  function ParseThreads(value: string): Option<nat> {
    var negative := value != [] && value[0] == '-';
    var digits := if value != [] && (value[0] == '-' || value[0] == '+') then value[1..] else value;
    if digits == [] || !AllDigits(digits) then None
    else
      var n := Decimal.Parse(digits);
      if n >= ULONG then None
      else
        var parsed := if negative && n > 0 then ULONG - n else n;
        if 1 <= parsed <= MAX_THREADS then Some(parsed) else None
  }

  lemma ParsePrintedThreads(n: nat)
    requires 1 <= n <= MAX_THREADS
    ensures ParseThreads(Decimal.Print(n)) == Some(n)
  {
    Decimal.ParsePrint(n);
    assert Decimal.IsDigit(Decimal.Print(n)[0]);
  }

  // ---------------------------------------------------------------------------
  // One line
  // ---------------------------------------------------------------------------

  datatype Parse = Parse(source: string, backup: string, restore: string, log: string, threads: nat,
                         settings: bool, found: bool)

  const DEFAULTS := Parse("/dati", "/backup", "/restore", "/var/log/syseba/syseba.log", 4, false, false)

  function Assign(p: Parse, key: string, value: string): Option<Parse> {
    if key == "source" then if |value| < PATH_MAX then Some(p.(source := value)) else None
    else if key == "backup" then if |value| < PATH_MAX then Some(p.(backup := value)) else None
    else if key == "restore" then if |value| < PATH_MAX then Some(p.(restore := value)) else None
    else if key == "log" then if |value| < PATH_MAX then Some(p.(log := value)) else None
    else if key == "threads" then
      match ParseThreads(value)
      case None => None
      case Some(n) => Some(p.(threads := n))
    else Some(p)
  }

  /** What a line does to the values read so far; `None` when it is malformed. */
  function ReadLine(p: Parse, line: string): Option<Parse> {
    var trimmed := Trimmed(line);
    if trimmed == [] || trimmed[0] == '#' || trimmed[0] == ';' then Some(p)
    else if trimmed[0] == '[' then
      var end := IndexOf(trimmed, ']');
      if end == |trimmed| then None
      else
        var settings := Lower(trimmed[1..end]) == "settings";
        Some(p.(settings := settings, found := p.found || settings))
    else if !p.settings then Some(p)
    else
      var separator := IndexOf(trimmed, '=');
      if separator == |trimmed| then None
      else Assign(p, Lower(Trimmed(trimmed[..separator])), Trimmed(trimmed[separator + 1..]))
  }

  // ---------------------------------------------------------------------------
  // The whole text
  // ---------------------------------------------------------------------------

  const LINE_ROOM := PATH_MAX + 127

  /** How much `fgets` takes: up to and with the newline, or as much as the buffer holds. */
  function LineLength(text: string, room: nat): (n: nat)
    ensures n <= |text| && n <= room && (text != [] && room > 0 ==> n > 0)
  {
    if text == [] || room == 0 then 0
    else if text[0] == '\n' then 1
    else 1 + LineLength(text[1..], room - 1)
  }

  predicate Bom(line: string) {
    |line| >= 3 && line[0] as int == 0xef && line[1] as int == 0xbb && line[2] as int == 0xbf
  }

  function ReadText(p: Parse, text: string, first: bool): Option<Parse>
    decreases |text|
  {
    if text == [] then Some(p)
    else
      var n := LineLength(text, LINE_ROOM);
      var line, rest := text[..n], text[n..];
      if '\n' !in line && n == LINE_ROOM && rest != [] then None
      else
        match ReadLine(p, if first && Bom(line) then line[3..] else line)
        case None => None
        case Some(q) => ReadText(q, rest, false)
  }

  function ResolveConfigPath(disk: Disk, base: string, value: string): Option<string> {
    if value != [] && value[0] == '/' then RealText(value, disk.cwd, PATH_MAX)
    else if |base| + 1 + |value| >= PATH_MAX then None
    else RealText(base + "/" + value, disk.cwd, PATH_MAX)
  }

  datatype Loaded = Loaded(config: Config) | Refused

  /** What loading `text` from `path` gives. */
  function LoadText(disk: Disk, path: string, text: string): Loaded {
    var configPath := RealText(path, disk.cwd, PATH_MAX);
    var parsed := ReadText(DEFAULTS, text, true);
    if configPath == None || parsed == None then Refused
    else
      var p, base := parsed.value, ParentDir(configPath.value);
      if !p.found || p.source == "" || p.backup == "" || p.restore == "" || p.log == "" then Refused
      else
        var source, backup := ResolveConfigPath(disk, base, p.source), ResolveConfigPath(disk, base, p.backup);
        var restore, log := ResolveConfigPath(disk, base, p.restore), ResolveConfigPath(disk, base, p.log);
        if source == None || backup == None || restore == None || log == None then Refused
        else
          var config := Config(source.value, backup.value, restore.value, log.value, configPath.value, p.threads);
          if Acceptable(disk, config) then Loaded(config) else Refused
  }

  /** `syseba_config_load`: the loop over the lines, then defaults, resolution and validation. */
  method Load(disk: Disk, path: string, text: string) returns (r: Loaded)
    requires SoundDisk(disk)
    ensures r == LoadText(disk, path, text)
  {
    var configPath := RealText(path, disk.cwd, PATH_MAX);
    if configPath == None {
      return Refused;
    }
    var base := ParentDir(configPath.value);
    var p, rest, first := DEFAULTS, text, true;
    while rest != []
      invariant ReadText(p, rest, first) == ReadText(DEFAULTS, text, true)
      decreases |rest|
    {
      var n := LineLength(rest, LINE_ROOM);
      var line := rest[..n];
      rest := rest[n..];
      if '\n' !in line && n == LINE_ROOM && rest != [] {
        return Refused;
      }
      if first && Bom(line) {
        line := line[3..];
      }
      first := false;
      var next := ReadLine(p, line);
      if next == None {
        return Refused;
      }
      p := next.value;
    }
    if !p.found || p.source == "" || p.backup == "" || p.restore == "" || p.log == "" {
      return Refused;
    }
    var source, backup := ResolveConfigPath(disk, base, p.source), ResolveConfigPath(disk, base, p.backup);
    var restore, log := ResolveConfigPath(disk, base, p.restore), ResolveConfigPath(disk, base, p.log);
    if source == None || backup == None || restore == None || log == None {
      return Refused;
    }
    var config := Config(source.value, backup.value, restore.value, log.value, configPath.value, p.threads);
    var valid := Validate(disk, config);
    return if valid == OK then Loaded(config) else Refused;
  }

  function Setting(key: string, value: string): string {
    key + " = " + value
  }

  /** What `syseba_config_save` prints. */
  function Printed(c: Config): string {
    "# SySeBa configuration" + "\n" +
    ("[SETTINGS]" + "\n" +
     (Setting("source", c.source) + "\n" +
      (Setting("backup", c.backup) + "\n" +
       (Setting("restore", c.restore) + "\n" +
        (Setting("log", c.logFile) + "\n" +
         (Setting("threads", Decimal.Print(c.threads)) + "\n" + ""))))))
  }

  // ---------------------------------------------------------------------------
  // Reading back what was printed
  // ---------------------------------------------------------------------------

  lemma {:induction false} LineLengthIs(a: string, rest: string, room: nat)
    requires '\n' !in a && |a| < room
    ensures LineLength(a + "\n" + rest, room) == |a| + 1
  {
    var s := a + "\n" + rest;
    if a != [] {
      assert s[1..] == a[1..] + "\n" + rest;
      assert s[0] in a;
      LineLengthIs(a[1..], rest, room - 1);
    }
  }

  lemma ReadNext(p: Parse, a: string, rest: string, first: bool)
    requires '\n' !in a && |a| < LINE_ROOM && !Bom(a + "\n")
    ensures ReadText(p, a + "\n" + rest, first) ==
            match ReadLine(p, a + "\n") { case None => None case Some(q) => ReadText(q, rest, false) }
  {
    LineLengthIs(a, rest, LINE_ROOM);
    var text := a + "\n" + rest;
    assert text[..|a| + 1] == a + "\n" && text[|a| + 1..] == rest;
    assert '\n' in a + "\n";
  }

  lemma {:induction false} TrimRightFacts(s: string)
    ensures TrimRight(s) <= s && TrimRight(TrimRight(s)) == TrimRight(s)
    ensures s != [] && !IsSpace(s[0]) ==> TrimRight(s) != [] && TrimRight(s)[0] == s[0]
    ensures s != [] ==> (TrimRight(s) == s <==> !IsSpace(s[|s| - 1]))
  {
    if s != [] && IsSpace(s[|s| - 1]) {
      TrimRightFacts(s[..|s| - 1]);
    }
  }

  lemma {:induction false} TrimRightAppend(a: string, b: string)
    requires TrimRight(b) != []
    ensures TrimRight(a + b) == a + TrimRight(b)
  {
    if IsSpace(b[|b| - 1]) {
      assert (a + b)[..|a + b| - 1] == a + b[..|b| - 1];
      TrimRightAppend(a, b[..|b| - 1]);
    }
  }

  lemma {:induction false} IndexOfAfter(a: string, c: char, rest: string)
    requires c !in a
    ensures IndexOf(a + [c] + rest, c) == |a|
  {
    var s := a + [c] + rest;
    if a != [] {
      assert s[0] in a;
      assert s[1..] == a[1..] + [c] + rest;
      IndexOfAfter(a[1..], c, rest);
    }
  }

  /** A word of lower-case letters, as all keys are. */
  predicate IsKey(s: string) {
    s != [] && forall i :: 0 <= i < |s| ==> 'a' <= s[i] <= 'z'
  }

  lemma KeyTrims(key: string)
    requires IsKey(key)
    ensures Trimmed(key + " ") == key && Lower(key) == key && '=' !in key + " "
  {
    var s := key + " ";
    assert TrimLeft(s) == s;
    assert s[..|s| - 1] == key;
    assert !IsSpace(key[|key| - 1]);
    assert TrimRight(key) == key;
  }

  lemma TrimSetting(key: string, value: string)
    requires IsKey(key) && value != [] && !IsSpace(value[0])
    ensures Trimmed(Setting(key, value) + "\n") == key + " = " + TrimRight(value)
  {
    var line := Setting(key, value) + "\n";
    TrimRightFacts(value);
    assert TrimLeft(line) == line;
    assert line == (key + " = ") + (value + "\n");
    assert (value + "\n")[..|value + "\n"| - 1] == value;
    TrimRightAppend(key + " = ", value + "\n");
  }

  lemma SplitSetting(key: string, kept: string)
    requires IsKey(key) && kept != [] && !IsSpace(kept[0]) && TrimRight(kept) == kept
    ensures var trimmed := key + " = " + kept;
            && IndexOf(trimmed, '=') == |key| + 1
            && Lower(Trimmed(trimmed[..|key| + 1])) == key
            && Trimmed(trimmed[|key| + 2..]) == kept
  {
    KeyTrims(key);
    Regroup(key, kept);
    IndexOfAfter(key + " ", '=', " " + kept);
    TrimBlank(kept);
  }

  lemma Regroup(key: string, kept: string)
    ensures key + " = " + kept == (key + " ") + ['='] + (" " + kept)
    ensures (key + " = " + kept)[..|key| + 1] == key + " "
    ensures (key + " = " + kept)[|key| + 2..] == " " + kept
  {
    assert " = " == [' '] + ['='] + [' '];
  }

  lemma TrimBlank(kept: string)
    requires kept != [] && !IsSpace(kept[0]) && TrimRight(kept) == kept
    ensures Trimmed(" " + kept) == kept
  {
    var s := " " + kept;
    assert s[0] == ' ' && s[1..] == kept;
    assert TrimLeft(kept) == kept;
    assert TrimLeft(s) == TrimLeft(s[1..]);
  }

  /** A printed setting is read back as its value without trailing white space. */
  lemma ReadSetting(p: Parse, key: string, value: string)
    requires p.settings && IsKey(key) && value != [] && !IsSpace(value[0])
    ensures ReadLine(p, Setting(key, value) + "\n") == Assign(p, key, TrimRight(value))
  {
    TrimRightFacts(value);
    TrimSetting(key, value);
    SplitSetting(key, TrimRight(value));
    assert (key + " = " + TrimRight(value))[0] == key[0];
  }

  lemma ReadHeader(p: Parse)
    ensures ReadLine(p, "# SySeBa configuration" + "\n") == Some(p)
    ensures ReadLine(p, "[SETTINGS]" + "\n") == Some(p.(settings := true, found := true))
  {
    var a, b := "# SySeBa configuration" + "\n", "[SETTINGS]" + "\n";
    TrimRightFacts(a);
    assert TrimLeft(a) == a && TrimLeft(b) == b;
    assert b[..|b| - 1] == "[SETTINGS]";
    assert TrimRight("[SETTINGS]") == "[SETTINGS]";
    IndexOfAfter("[SETTINGS", ']', "");
    assert "[SETTINGS" + [']'] + "" == "[SETTINGS]";
    assert "[SETTINGS]"[1..9] == "SETTINGS";
    assert Lower("SETTINGS") == "settings";
  }

  /** One printed setting in front of the rest of the text. */
  lemma ReadNextSetting(p: Parse, key: string, value: string, rest: string)
    requires p.settings && IsKey(key) && |key| <= 7 && |value| < PATH_MAX
    requires value != [] && !IsSpace(value[0]) && '\n' !in value
    ensures ReadText(p, Setting(key, value) + "\n" + rest, false) ==
            match Assign(p, key, TrimRight(value)) { case None => None case Some(q) => ReadText(q, rest, false) }
  {
    var a := Setting(key, value);
    ReadSetting(p, key, value);
    assert '\n' !in a by {
      assert '\n' !in key && '\n' !in " = ";
    }
    assert !Bom(a + "\n") by {
      assert (a + "\n")[0] == key[0];
    }
    ReadNext(p, a, rest, false);
  }

  ghost predicate Printable(v: string) {
    CanonicalText(v) && v != [] && v[0] == '/' && |v| < PATH_MAX && !HasLineBreak(v)
  }

  lemma ReadPath(p: Parse, key: string, v: string, rest: string)
    requires p.settings && Printable(v) && key in ["source", "backup", "restore", "log"]
    ensures Assign(p, key, TrimRight(v)).Some?
    ensures ReadText(p, Setting(key, v) + "\n" + rest, false) ==
            ReadText(Assign(p, key, TrimRight(v)).value, rest, false)
  {
    TrimRightFacts(v);
    ReadNextSetting(p, key, v, rest);
  }

  lemma ReadThreads(p: Parse, n: nat)
    requires p.settings && 1 <= n <= MAX_THREADS
    ensures ReadText(p, Setting("threads", Decimal.Print(n)) + "\n" + "", false) == Some(p.(threads := n))
  {
    ParsePrintedThreads(n);
    NumberFacts(n);
    ReadNextSetting(p, "threads", Decimal.Print(n), "");
  }

  /** What reading the printed text gives: the paths without trailing white space. */
  lemma ReadPrinted(c: Config)
    requires Printable(c.source) && Printable(c.backup) && Printable(c.restore) && Printable(c.logFile)
    requires 1 <= c.threads <= MAX_THREADS
    ensures ReadText(DEFAULTS, Printed(c), true) ==
            Some(Parse(TrimRight(c.source), TrimRight(c.backup), TrimRight(c.restore), TrimRight(c.logFile),
                       c.threads, true, true))
  {
    var t7 := Setting("threads", Decimal.Print(c.threads)) + "\n" + "";
    var t6 := Setting("log", c.logFile) + "\n" + t7;
    var t5 := Setting("restore", c.restore) + "\n" + t6;
    var t4 := Setting("backup", c.backup) + "\n" + t5;
    var t3 := Setting("source", c.source) + "\n" + t4;
    var p2 := DEFAULTS.(settings := true, found := true);
    var p3 := p2.(source := TrimRight(c.source));
    var p4 := p3.(backup := TrimRight(c.backup));
    var p5 := p4.(restore := TrimRight(c.restore));
    var p6 := p5.(log := TrimRight(c.logFile));
    calc {
      ReadText(DEFAULTS, Printed(c), true);
      { ReadStart(t3); }
      ReadText(p2, t3, false);
      { ReadPath(p2, "source", c.source, t4); }
      ReadText(p3, t4, false);
      { ReadPath(p3, "backup", c.backup, t5); }
      ReadText(p4, t5, false);
      { ReadPath(p4, "restore", c.restore, t6); }
      ReadText(p5, t6, false);
      { ReadPath(p5, "log", c.logFile, t7); }
      ReadText(p6, t7, false);
      { ReadThreads(p6, c.threads); }
      Some(p6.(threads := c.threads));
    }
  }

  lemma NumberFacts(n: nat)
    requires 1 <= n <= MAX_THREADS
    ensures var s := Decimal.Print(n);
            s != [] && !IsSpace(s[0]) && TrimRight(s) == s && '\n' !in s && |s| < PATH_MAX
  {
    var s := Decimal.Print(n);
    assert n >= 10 ==> |Decimal.Print(n / 10)| == 1;
  }

  lemma ReadStart(rest: string)
    ensures ReadText(DEFAULTS, "# SySeBa configuration" + "\n" + ("[SETTINGS]" + "\n" + rest), true) ==
            ReadText(DEFAULTS.(settings := true, found := true), rest, false)
  {
    var a, b := "# SySeBa configuration", "[SETTINGS]";
    ReadHeader(DEFAULTS);
    assert (a + "\n")[0] == '#' && (b + "\n")[0] == '[';
    ReadNext(DEFAULTS, a, b + "\n" + rest, true);
    ReadNext(DEFAULTS, b, rest, false);
  }

  predicate EndsInSpace(s: string) {
    s != [] && IsSpace(s[|s| - 1])
  }

  lemma ReadBack(disk: Disk, base: string, v: string)
    requires Printable(v)
    ensures ResolveConfigPath(disk, base, TrimRight(v)) == Some(v) <==> !EndsInSpace(v)
    ensures TrimRight(v) != ""
  {
    TrimRightFacts(v);
    if EndsInSpace(v) {
      NormalShrinks(TrimRight(v));
    }
  }

  /** Saving and loading is the identity on a valid normalised configuration, exactly when none of its
      paths ends in white space. */
  lemma SaveThenLoad(disk: Disk, c: Config)
    requires Printable(c.source) && Printable(c.backup) && Printable(c.restore) && Printable(c.logFile)
    requires Printable(c.configPath) && Acceptable(disk, c)
    ensures LoadText(disk, c.configPath, Printed(c)) == Loaded(c) <==>
              !EndsInSpace(c.source) && !EndsInSpace(c.backup) && !EndsInSpace(c.restore) && !EndsInSpace(c.logFile)
  {
    ReadPrinted(c);
    var base := ParentDir(c.configPath);
    ReadBack(disk, base, c.source);
    ReadBack(disk, base, c.backup);
    ReadBack(disk, base, c.restore);
    ReadBack(disk, base, c.logFile);
    assert RealText(c.configPath, disk.cwd, PATH_MAX) == Some(c.configPath);
  }

  /** One directory below the root, as text. */
  lemma OneLevel(name: string)
    requires IsComponent(name) && |name| < 100 && !HasLineBreak(name)
    ensures Printable("/" + name) && Components("/" + name) == [name]
  {
    assert [name][..0] == [];
    assert Slashed([name]) == Slashed([]) + "/" + name;
    assert Text([name]) == "/" + name;
    ComponentsOfText([name]);
  }

  /** A disk with nothing but the root that can be resolved, and no links. */
  function BareDisk(): Disk {
    Disk(p => p == "/", p => true, p => if p == "/" then Some("/") else None, None)
  }

  lemma BareDiskIsLinkFree()
    ensures LinkFree(BareDisk())
  {
    ComponentsOfText([]);
  }

  lemma BareAcceptable(disk: Disk, c: Config)
    requires disk == BareDisk() && c == Config("/s", "/b ", "/r", "/l", "/c", 1)
    requires Printable(c.source) && Printable(c.backup) && Printable(c.restore) && Printable(c.logFile)
    requires Components(c.source) == ["s"] && Components(c.backup) == ["b "] && Components(c.restore) == ["r"]
    requires Components(c.logFile) == ["l"] && Printable(c.configPath)
    ensures Acceptable(disk, c)
  {
    BareDiskIsLinkFree();
    NotNestedIsApart(disk, c.source, c.backup);
    NotNestedIsApart(disk, c.source, c.restore);
    NotNestedIsApart(disk, c.backup, c.restore);
    NotNestedIsApart(disk, c.source, c.logFile);
  }

  /** An accepted configuration whose backup path ends in a space does not come back. */
  lemma SpaceIsLost() returns (disk: Disk, c: Config)
    ensures LinkFree(disk) && Acceptable(disk, c) && c == Config("/s", "/b ", "/r", "/l", "/c", 1)
    ensures LoadText(disk, c.configPath, Printed(c)) != Loaded(c)
  {
    disk := BareDisk();
    c := Config("/s", "/b ", "/r", "/l", "/c", 1);
    assert "/" + "s" == "/s" && "/" + "b " == "/b " && "/" + "r" == "/r" && "/" + "l" == "/l" && "/" + "c" == "/c";
    OneLevel("s");
    OneLevel("b ");
    OneLevel("r");
    OneLevel("l");
    OneLevel("c");
    BareDiskIsLinkFree();
    BareAcceptable(disk, c);
    assert EndsInSpace("/b ");
    SaveThenLoad(disk, c);
  }
}
