/** Names of agent packages: printed from version, architecture and format, and read back. */
module AgentPkg {
  import opened Options

  const DEB: string := "deb"
  const RPM: string := "rpm"
  const TARBALL: string := "tar.gz"

  const MAX_VERSION: int := 64

  datatype Info = Info(version: string, arch: string, format: string)

  // ---- versions

  /** The position of the first c, the length if there is none. */
  function IndexOf(s: string, c: char): (i: nat)
    ensures i <= |s| && (i < |s| ==> s[i] == c) && forall j :: 0 <= j < i ==> s[j] != c
  {
    if s == "" || s[0] == c then 0 else 1 + IndexOf(s[1..], c)
  }

  lemma IndexIs(s: string, c: char, i: nat)
    requires i <= |s| && (i < |s| ==> s[i] == c) && forall j :: 0 <= j < i ==> s[j] != c
    ensures IndexOf(s, c) == i
  {
  }

  predicate IsDigit(c: char) { '0' <= c <= '9' }

  predicate IsSuffixChar(c: char) { IsDigit(c) || 'A' <= c <= 'Z' || 'a' <= c <= 'z' || c == '.' }

  predicate Digits(s: string) { s != "" && forall i :: 0 <= i < |s| ==> IsDigit(s[i]) }

  /** Three numbers with dots between them. */
  predicate Core(s: string) {
    var i := IndexOf(s, '.');
    && i < |s| && Digits(s[..i])
    && var rest := s[i + 1..];
       var j := IndexOf(rest, '.');
       j < |rest| && Digits(rest[..j]) && Digits(rest[j + 1..])
  }

  predicate Suffix(s: string) { s != "" && forall i :: 0 <= i < |s| ==> IsSuffixChar(s[i]) }

  /** Three numbers, and possibly a pre-release after the separator. */
  predicate VersionText(v: string, separator: char) {
    var i := IndexOf(v, separator);
    Core(v[..i]) && (i < |v| ==> Suffix(v[i + 1..]))
  }

  predicate ValidVersion(v: string) { |v| <= MAX_VERSION && VersionText(v, '-') }

  predicate ValidArch(a: string) { a == "amd64" || a == "arm64" }

  function ReplaceFirst(v: string, a: char, b: char): string {
    var i := IndexOf(v, a);
    if i < |v| then v[..i] + [b] + v[i + 1..] else v
  }

  lemma CoreChars(s: string)
    requires Core(s)
    ensures forall k :: 0 <= k < |s| ==> IsDigit(s[k]) || s[k] == '.'
  {
    var i := IndexOf(s, '.');
    var rest := s[i + 1..];
    var j := IndexOf(rest, '.');
    forall k | 0 <= k < |s| ensures IsDigit(s[k]) || s[k] == '.' {
      if k < i {
        assert s[k] == s[..i][k];
      } else if i < k < i + 1 + j {
        assert s[k] == rest[..j][k - i - 1];
      } else if k > i + 1 + j {
        assert s[k] == rest[j + 1..][k - i - j - 2];
      }
    }
  }

  /** A separator that cannot occur elsewhere in a version. */
  predicate Separates(c: char) { c == '-' || c == '~' }

  /** Writing a version with the other separator and back gives the version. */
  lemma SeparatorSwapped(v: string, a: char, b: char)
    requires VersionText(v, a) && Separates(a) && Separates(b)
    ensures VersionText(ReplaceFirst(v, a, b), b) && ReplaceFirst(ReplaceFirst(v, a, b), b, a) == v
    ensures |ReplaceFirst(v, a, b)| == |v|
  {
    hide Core;
    hide Suffix;
    var i := IndexOf(v, a);
    CoreChars(v[..i]);
    var w := ReplaceFirst(v, a, b);
    assert forall k :: 0 <= k < i ==> w[k] == v[..i][k];
    IndexIs(w, b, i);
    assert w[..i] == v[..i];
    if i < |v| {
      assert w[i + 1..] == v[i + 1..];
      assert v == v[..i] + [a] + v[i + 1..];
    }
  }

  /** A version holds only digits, letters, dots and the separator. */
  lemma VersionChars(v: string, separator: char)
    requires VersionText(v, separator)
    ensures forall k :: 0 <= k < |v| ==> IsSuffixChar(v[k]) || v[k] == separator
  {
    var i := IndexOf(v, separator);
    CoreChars(v[..i]);
    forall k | 0 <= k < |v| ensures IsSuffixChar(v[k]) || v[k] == separator {
      if k < i {
        assert v[k] == v[..i][k];
      } else if k > i {
        assert v[k] == v[i + 1..][k - i - 1];
      }
    }
  }

  // ---- names

  function RpmArch(arch: string): string { if arch == "amd64" then "x86_64" else "aarch64" }

  function Before(format: string): string {
    if format == RPM then "healthbeat-agent-" else "healthbeat-agent_"
  }

  function After(arch: string, format: string): string {
    if format == DEB then "_" + arch + ".deb"
    else if format == RPM then "-1." + RpmArch(arch) + ".rpm"
    else "_linux_" + arch + ".tar.gz"
  }

  /** The name of a package in a release; none for a version, architecture or format that is not accepted. */
  function FileName(info: Info): Option<string> {
    if !ValidVersion(info.version) || !ValidArch(info.arch) then None
    else if info.format == DEB
         then Some("healthbeat-agent_" + ReplaceFirst(info.version, '-', '~') + "_" + info.arch + ".deb")
    else if info.format == RPM
         then Some("healthbeat-agent-" + ReplaceFirst(info.version, '-', '~') + "-1." + RpmArch(info.arch) + ".rpm")
    else if info.format == TARBALL then Some("healthbeat-agent_" + info.version + "_linux_" + info.arch + ".tar.gz")
    else None
  }

  /** What stands between a beginning and an end, if the string has both. */
  function Between(s: string, front: string, back: string): (m: Option<string>)
    ensures m.Some? ==> s == front + m.value + back
  {
    var n := |s| - |back|;
    if |front| <= n && s[..|front|] == front && s[n..] == back
    then
      assert s == front + s[|front|..n] + back;
      Some(s[|front|..n])
    else None
  }

  predicate ValidFormat(format: string) { format == DEB || format == RPM || format == TARBALL }

  /** Packages write a pre-release with a tilde, the tarball with a hyphen. */
  function SeparatorOf(format: string): char { if format == TARBALL then '-' else '~' }

  function Written(version: string, format: string): string {
    if format == TARBALL then version else ReplaceFirst(version, '-', '~')
  }

  function ReadBack(m: string, format: string): string {
    if format == TARBALL then m else ReplaceFirst(m, '~', '-')
  }

  /** The pattern of a format, for one architecture. */
  function ReadAs(f: string, arch: string, format: string): Option<Info> {
    match Between(f, Before(format), After(arch, format))
    case None => None
    case Some(m) => if VersionText(m, SeparatorOf(format)) then Some(Info(ReadBack(m, format), arch, format)) else None
  }

  function FirstOf(a: Option<Info>, b: Option<Info>): Option<Info> { if a.Some? then a else b }

  /** The package a name stands for; none if it is not a package name. */
  function Parse(f: string): Option<Info> {
    FirstOf(FirstOf(ReadAs(f, "amd64", DEB), ReadAs(f, "arm64", DEB)),
            FirstOf(FirstOf(ReadAs(f, "amd64", RPM), ReadAs(f, "arm64", RPM)),
                    FirstOf(ReadAs(f, "amd64", TARBALL), ReadAs(f, "arm64", TARBALL))))
  }

  // ---- one name, one package

  ghost predicate Names(f: string, m: string, arch: string, format: string) {
    f == Before(format) + m + After(arch, format) && ValidArch(arch) && ValidFormat(format)
        && VersionText(m, SeparatorOf(format))
  }

  /** How far from the end the two architectures of a format differ, and by what. */
  function Telling(format: string): nat { if format == DEB then 8 else if format == RPM then 7 else 10 }

  function Mark(arch: string, format: string): char {
    if format == DEB then (if arch == "amd64" then 'm' else 'r')
    else if format == RPM then (if arch == "amd64" then '_' else 'h')
    else if arch == "amd64" then 'd' else 'm'
  }

  lemma EndsOf(f: string, m: string, arch: string, format: string)
    requires Names(f, m, arch, format)
    ensures |f| > 17 && f[16] == (if format == RPM then '-' else '_')
    ensures f[|f| - 1] == (if format == DEB then 'b' else if format == RPM then 'm' else 'z')
    ensures f[|f| - Telling(format)] == Mark(arch, format)
  {
    hide VersionText;
    var front, back := Before(format), After(arch, format);
    assert |front| == 17 && f[16] == front[16];
    assert f[17 + |m|..] == back;
    assert back[|back| - 1] == f[|f| - 1] && back[|back| - Telling(format)] == f[|f| - Telling(format)];
  }

  /** No string is the name of two packages. */
  lemma Unambiguous(f: string, m: string, arch: string, format: string, m': string, arch': string, format': string)
    requires Names(f, m, arch, format) && Names(f, m', arch', format')
    ensures m == m' && arch == arch' && format == format'
  {
    hide VersionText;
    hide Before;
    hide After;
    EndsOf(f, m, arch, format);
    EndsOf(f, m', arch', format');
    BetweenExact(f, Before(format), After(arch, format), m);
    BetweenExact(f, Before(format'), After(arch', format'), m');
  }

  lemma BetweenExact(f: string, front: string, back: string, m: string)
    requires f == front + m + back
    ensures Between(f, front, back) == Some(m)
  {
    assert f[..|front|] == front && f[|front| + |m|..] == back && f[|front|..|front| + |m|] == m;
  }

  /** A name is read as the package it names. */
  lemma NameIsRead(f: string, m: string, arch: string, format: string)
    requires Names(f, m, arch, format)
    ensures Parse(f) == Some(Info(ReadBack(m, format), arch, format))
  {
    BetweenExact(f, Before(format), After(arch, format), m);
    forall a, b | ValidArch(a) && ValidFormat(b) && ReadAs(f, a, b).Some? ensures a == arch && b == format {
      Unambiguous(f, m, arch, format, Between(f, Before(b), After(a, b)).value, a, b);
    }
  }

  /** What is read is a name. */
  lemma ReadIsName(f: string) returns (m: string)
    requires Parse(f).Some?
    ensures var info := Parse(f).value;
            Names(f, m, info.arch, info.format) && info.version == ReadBack(m, info.format)
  {
    var info := Parse(f).value;
    m := Between(f, Before(info.format), After(info.arch, info.format)).value;
  }

  // ---- round trips

  /** Every accepted package is read back from its name. */
  lemma ParseFileName(info: Info)
    requires FileName(info).Some?
    ensures Parse(FileName(info).value) == Some(info)
  {
    SeparatorSwapped(info.version, '-', '~');
    var f, m := FileName(info).value, Written(info.version, info.format);
    NameForm(info);
    NameIsRead(f, m, info.arch, info.format);
  }

  lemma NameForm(info: Info)
    requires FileName(info).Some?
    ensures Names(FileName(info).value, Written(info.version, info.format), info.arch, info.format)
  {
    SeparatorSwapped(info.version, '-', '~');
  }

  /** A name that is read is written again exactly when its version is not longer than a version may be. */
  lemma FileNameParse(f: string)
    requires Parse(f).Some?
    ensures FileName(Parse(f).value) == Some(f) <==> |Parse(f).value.version| <= MAX_VERSION
  {
    var m := ReadIsName(f);
    var info := Parse(f).value;
    SeparatorSwapped(m, SeparatorOf(info.format), '-');
    SameSeparator(m);
    WrittenAgain(f, m, info);
  }

  lemma WrittenAgain(f: string, m: string, info: Info)
    requires Names(f, m, info.arch, info.format) && m == Written(info.version, info.format)
             && VersionText(info.version, '-')
    ensures FileName(info) == Some(f) <==> |info.version| <= MAX_VERSION
  {
    hide VersionText;
    hide ReplaceFirst;
    if |info.version| <= MAX_VERSION {
      assert FileName(info).Some?;
      NameForm(info);
    }
  }

  lemma SameSeparator(m: string)
    ensures ReplaceFirst(m, '-', '-') == m
  {
  }

  /** Distinct packages never share a name. */
  lemma FileNameInjective(a: Info, b: Info)
    requires FileName(a).Some? && FileName(a) == FileName(b)
    ensures a == b
  {
    ParseFileName(a);
    ParseFileName(b);
  }

  predicate NoSlash(s: string) { forall k :: 0 <= k < |s| ==> s[k] != '/' && s[k] != '\\' }

  /** A name that is read holds no path separator. */
  lemma NoPathSeparator(f: string)
    requires Parse(f).Some?
    ensures NoSlash(f)
  {
    var m := ReadIsName(f);
    var info := Parse(f).value;
    hide Parse;
    VersionNoSlash(m, SeparatorOf(info.format));
    hide VersionText;
    Ends(info.arch, info.format);
    hide NoSlash;
    Joined(Before(info.format), m, After(info.arch, info.format));
  }

  lemma VersionNoSlash(m: string, separator: char)
    requires VersionText(m, separator) && Separates(separator)
    ensures NoSlash(m)
  {
    VersionChars(m, separator);
  }

  lemma Joined(a: string, b: string, c: string)
    requires NoSlash(a) && NoSlash(b) && NoSlash(c)
    ensures NoSlash(a + b + c)
  {
  }

  lemma Ends(arch: string, format: string)
    requires ValidArch(arch)
    ensures NoSlash(Before(format)) && NoSlash(After(arch, format))
  {
    Fronts();
    Arches();
    Backs();
    hide NoSlash;
    if format == DEB {
      Joined("_", arch, ".deb");
    } else if format == RPM {
      Joined("-1.", RpmArch(arch), ".rpm");
    } else {
      Joined("_linux_", arch, ".tar.gz");
    }
  }

  lemma Fronts()
    ensures NoSlash("healthbeat-agent-") && NoSlash("healthbeat-agent_")
  {
  }

  lemma Arches()
    ensures NoSlash("amd64") && NoSlash("arm64") && NoSlash("x86_64") && NoSlash("aarch64")
  {
  }

  lemma Backs()
    ensures NoSlash("_") && NoSlash("-1.") && NoSlash("_linux_") && NoSlash(".deb") && NoSlash(".rpm")
            && NoSlash(".tar.gz")
  {
  }

  // ---- the names spelled out

  ghost predicate AllDigits(s: string) { s != "" && forall i :: 0 <= i < |s| ==> '0' <= s[i] <= '9' }

  ghost predicate IsCore(s: string, a: string, b: string, c: string) {
    AllDigits(a) && AllDigits(b) && AllDigits(c) && s == a + "." + b + "." + c
  }

  ghost predicate IsPreRelease(s: string) {
    s != "" && forall i :: 0 <= i < |s| ==>
      '0' <= s[i] <= '9' || 'A' <= s[i] <= 'Z' || 'a' <= s[i] <= 'z' || s[i] == '.'
  }

  /** Three numbers with dots, and possibly a pre-release of digits, letters and dots after a hyphen. */
  ghost predicate IsVersion(v: string, core: string, pre: string) {
    (exists a, b, c :: IsCore(core, a, b, c))
    && if pre == "" then v == core else IsPreRelease(pre) && v == core + "-" + pre
  }

  /** A version in a name: in a tarball with a hyphen, in packages with a tilde. */
  ghost function Spelled(core: string, pre: string, separator: string): string {
    if pre == "" then core else core + separator + pre
  }

  ghost function NameOf(core: string, pre: string, arch: string, format: string): Option<string> {
    if format == "deb" then
      if arch == "amd64" then Some("healthbeat-agent_" + Spelled(core, pre, "~") + "_amd64.deb")
      else if arch == "arm64" then Some("healthbeat-agent_" + Spelled(core, pre, "~") + "_arm64.deb") else None
    else if format == "rpm" then
      if arch == "amd64" then Some("healthbeat-agent-" + Spelled(core, pre, "~") + "-1.x86_64.rpm")
      else if arch == "arm64" then Some("healthbeat-agent-" + Spelled(core, pre, "~") + "-1.aarch64.rpm") else None
    else if format == "tar.gz" then
      if arch == "amd64" then Some("healthbeat-agent_" + Spelled(core, pre, "-") + "_linux_amd64.tar.gz")
      else if arch == "arm64" then Some("healthbeat-agent_" + Spelled(core, pre, "-") + "_linux_arm64.tar.gz") else None
    else None
  }

  /** A package has a name exactly when its version, of at most 64 characters, its architecture and its format are
      accepted, and the name is spelled so. */
  lemma FileNameSpelled(info: Info, f: string)
    ensures FileName(info) == Some(f)
            <==> exists core, pre :: && IsVersion(info.version, core, pre) && |info.version| <= 64
                                     && NameOf(core, pre, info.arch, info.format) == Some(f)
  {
    if FileName(info) == Some(f) {
      var core, pre := Split(info.version);
      SpelledExact(info.version, core, pre);
      NamedSo(info, core, pre);
    }
    if core, pre :| IsVersion(info.version, core, pre) && |info.version| <= 64
                    && NameOf(core, pre, info.arch, info.format) == Some(f) {
      SpelledExact(info.version, core, pre);
      NamedSo(info, core, pre);
    }
  }

  lemma NamedSo(info: Info, core: string, pre: string)
    requires ValidVersion(info.version) && info.version == Spelled(core, pre, "-")
    requires ReplaceFirst(info.version, '-', '~') == Spelled(core, pre, "~")
    ensures FileName(info) == NameOf(core, pre, info.arch, info.format)
  {
    hide ValidVersion;
    hide ReplaceFirst;
    hide Spelled;
    var p := Spelled(core, pre, "~");
    assert "healthbeat-agent_" + p + "_" + "amd64" + ".deb" == "healthbeat-agent_" + p + "_amd64.deb";
    assert "healthbeat-agent_" + p + "_" + "arm64" + ".deb" == "healthbeat-agent_" + p + "_arm64.deb";
    assert "healthbeat-agent-" + p + "-1." + "x86_64" + ".rpm" == "healthbeat-agent-" + p + "-1.x86_64.rpm";
    assert "healthbeat-agent-" + p + "-1." + "aarch64" + ".rpm" == "healthbeat-agent-" + p + "-1.aarch64.rpm";
    var v := info.version;
    assert "healthbeat-agent_" + v + "_linux_" + "amd64" + ".tar.gz" == "healthbeat-agent_" + v + "_linux_amd64.tar.gz";
    assert "healthbeat-agent_" + v + "_linux_" + "arm64" + ".tar.gz" == "healthbeat-agent_" + v + "_linux_arm64.tar.gz";
  }

  lemma CoreExact(s: string)
    ensures Core(s) <==> exists a, b, c :: IsCore(s, a, b, c)
  {
    hide Core;
    hide IsCore;
    if Core(s) {
      var a, b, c := CoreParts(s);
    }
    if a, b, c :| IsCore(s, a, b, c) {
      PartsOfCore(s, a, b, c);
    }
  }

  lemma CoreParts(s: string) returns (a: string, b: string, c: string)
    requires Core(s)
    ensures IsCore(s, a, b, c)
  {
    var i := IndexOf(s, '.');
    var rest := s[i + 1..];
    var j := IndexOf(rest, '.');
    a, b, c := s[..i], rest[..j], rest[j + 1..];
    assert s == a + "." + rest && rest == b + "." + c;
  }

  lemma PartsOfCore(s: string, a: string, b: string, c: string)
    requires IsCore(s, a, b, c)
    ensures Core(s)
  {
    var rest := b + "." + c;
    assert s == a + "." + rest;
    FirstPart(s, a, rest);
    FirstPart(rest, b, c);
  }

  lemma FirstPart(s: string, a: string, rest: string)
    requires AllDigits(a) && s == a + "." + rest
    ensures IndexOf(s, '.') == |a| < |s| && s[..|a|] == a && s[|a| + 1..] == rest
  {
    IndexIs(s, '.', |a|);
  }

  /** The parts of an accepted version. */
  lemma Split(v: string) returns (core: string, pre: string)
    requires VersionText(v, '-')
    ensures IsVersion(v, core, pre)
  {
    var i := IndexOf(v, '-');
    core, pre := v[..i], if i < |v| then v[i + 1..] else "";
    CoreExact(core);
    hide Core;
    hide IsCore;
    assert i < |v| ==> v == v[..i] + "-" + v[i + 1..];
  }

  lemma SpelledExact(v: string, core: string, pre: string)
    requires IsVersion(v, core, pre)
    ensures VersionText(v, '-') && v == Spelled(core, pre, "-")
    ensures ReplaceFirst(v, '-', '~') == Spelled(core, pre, "~")
  {
    CoreExact(core);
    CoreChars(core);
    hide Core;
    hide IsCore;
    IndexIs(v, '-', |core|);
    assert v[..|core|] == core;
    if pre != "" {
      assert v[|core| + 1..] == pre;
    }
  }
}
