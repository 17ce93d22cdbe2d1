/** An accepted configuration keeps source, backup and restore apart (src/config.c). */
module Separation {
  import opened Wrappers
  import opened PathText
  import opened PathReal
  import opened Containment
  import opened Joining

  const MAX_THREADS := 64

  datatype Config = Config(source: string, backup: string, restore: string, logFile: string, configPath: string,
                           threads: nat)

  datatype Result = OK | Invalid | NotFound

  predicate HasLineBreak(s: string) {
    '\r' in s || '\n' in s
  }

  predicate LineBreaks(c: Config) {
    HasLineBreak(c.source) || HasLineBreak(c.backup) || HasLineBreak(c.restore) || HasLineBreak(c.logFile)
    || HasLineBreak(c.configPath)
  }

  predicate Nested(disk: Disk, a: string, b: string) {
    Inside(disk, a, b) || Inside(disk, b, a)
  }

  predicate Acceptable(disk: Disk, c: Config) {
    && !LineBreaks(c) && disk.isDirectory(c.source)
    && c.source != c.backup && c.source != c.restore && c.backup != c.restore
    && !Nested(disk, c.source, c.backup) && !Nested(disk, c.source, c.restore) && !Nested(disk, c.backup, c.restore)
    && !Inside(disk, c.source, c.logFile)
    && 1 <= c.threads <= MAX_THREADS
  }

  method EitherWithin(disk: Disk, a: string, b: string) returns (r: bool)
    requires SoundDisk(disk)
    ensures r == Nested(disk, a, b)
  {
    r := IsWithin(disk, a, b);
    if !r {
      r := IsWithin(disk, b, a);
    }
  }

  /** `syseba_config_validate`, test by test. */
  method Validate(disk: Disk, c: Config) returns (r: Result)
    requires SoundDisk(disk)
    ensures r == OK <==> Acceptable(disk, c)
    ensures r == NotFound <==> !LineBreaks(c) && !disk.isDirectory(c.source)
  {
    if LineBreaks(c) {
      return Invalid;
    }
    if !disk.isDirectory(c.source) {
      return NotFound;
    }
    if c.source == c.backup || c.source == c.restore || c.backup == c.restore {
      return Invalid;
    }
    var nested := EitherWithin(disk, c.source, c.backup);
    if !nested {
      nested := EitherWithin(disk, c.source, c.restore);
    }
    if !nested {
      nested := EitherWithin(disk, c.backup, c.restore);
    }
    if nested {
      return Invalid;
    }
    var logInside := IsWithin(disk, c.source, c.logFile);
    if logInside || c.threads < 1 || c.threads > MAX_THREADS {
      return Invalid;
    }
    return OK;
  }

  /** Neither path is an ancestor of the other, nor are they equal. */
  ghost predicate Apart(a: seq<string>, b: seq<string>) {
    !(a <= b) && !(b <= a)
  }

  /** The configured roots, in the form `syseba_config_normalize` leaves them in. */
  ghost predicate Normalized(c: Config) {
    && CanonicalText(c.source) && CanonicalText(c.backup) && CanonicalText(c.restore)
    && |c.source| < PATH_MAX && |c.backup| < PATH_MAX && |c.restore| < PATH_MAX
  }

  lemma NotNestedIsApart(disk: Disk, a: string, b: string)
    requires LinkFree(disk) && CanonicalText(a) && CanonicalText(b) && |a| < PATH_MAX && |b| < PATH_MAX
    ensures Nested(disk, a, b) <==> !Apart(Components(a), Components(b))
  {
    CanonicalTextParts(a);
    CanonicalTextParts(b);
    InsideBelow(disk, Components(a), Components(b));
    InsideBelow(disk, Components(b), Components(a));
  }

  lemma RootsApart(disk: Disk, c: Config)
    requires LinkFree(disk) && Normalized(c) && Acceptable(disk, c)
    ensures Apart(Components(c.source), Components(c.backup))
    ensures Apart(Components(c.source), Components(c.restore))
    ensures Apart(Components(c.backup), Components(c.restore))
  {
    NotNestedIsApart(disk, c.source, c.backup);
    NotNestedIsApart(disk, c.source, c.restore);
    NotNestedIsApart(disk, c.backup, c.restore);
  }

  lemma ApartBelow(a: seq<string>, b: seq<string>, x: seq<string>, y: seq<string>)
    requires Apart(a, b) && a <= x && b <= y
    ensures Apart(x, y)
  {
  }

  /** No carriage return and no newline, by their codes. */
  predicate OneLine(s: string) {
    forall i :: 0 <= i < |s| ==> s[i] as int != 13 && s[i] as int != 10
  }

  lemma OneLineIff(s: string)
    ensures OneLine(s) <==> !HasLineBreak(s)
  {
    if HasLineBreak(s) {
      var i :| 0 <= i < |s| && (s[i] == '\r' || s[i] == '\n');
    }
  }

  /** Without links a normalised configuration is accepted if and only if its source is a directory, none of the three
      trees lies in another, the log is not in the source, there are 1 to 64 threads, and every path is one line. */
  lemma AcceptedIff(disk: Disk, c: Config)
    requires LinkFree(disk) && Normalized(c) && CanonicalText(c.logFile) && |c.logFile| < PATH_MAX
    ensures Acceptable(disk, c) <==>
              && disk.isDirectory(c.source)
              && Apart(Components(c.source), Components(c.backup)) && Apart(Components(c.source), Components(c.restore))
              && Apart(Components(c.backup), Components(c.restore))
              && !(Components(c.source) <= Components(c.logFile))
              && 1 <= c.threads <= 64
              && OneLine(c.source) && OneLine(c.backup) && OneLine(c.restore) && OneLine(c.logFile)
              && OneLine(c.configPath)
  {
    NotNestedIsApart(disk, c.source, c.backup);
    NotNestedIsApart(disk, c.source, c.restore);
    NotNestedIsApart(disk, c.backup, c.restore);
    LogInside(disk, c);
    OneLineIff(c.source);
    OneLineIff(c.backup);
    OneLineIff(c.restore);
    OneLineIff(c.logFile);
    OneLineIff(c.configPath);
  }

  lemma LogInside(disk: Disk, c: Config)
    requires LinkFree(disk) && CanonicalText(c.source) && CanonicalText(c.logFile)
    requires |c.source| < PATH_MAX && |c.logFile| < PATH_MAX
    ensures Inside(disk, c.source, c.logFile) <==> Components(c.source) <= Components(c.logFile)
  {
    CanonicalTextParts(c.source);
    CanonicalTextParts(c.logFile);
    InsideBelow(disk, Components(c.source), Components(c.logFile));
  }
}
