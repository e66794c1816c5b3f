/** Names of version directories (`_split_generation` and the names `stage_version` and `migrate_legacy_tree`
    give, raisin_ota/install_tree.py): a generation of four digits, a dash, the version. */
module VersionNames {
  import opened Wrappers

  predicate IsDigit(c: char) {
    '0' <= c <= '9'
  }

  function DigitChar(d: nat): (c: char)
    requires d < 10
    ensures IsDigit(c)
  {
    ['0', '1', '2', '3', '4', '5', '6', '7', '8', '9'][d]
  }

  function DigitValue(c: char): (d: nat)
    requires IsDigit(c)
    ensures d < 10
  {
    (c - '0') as int
  }

  function Decimal(n: nat): (s: string)
    ensures |s| >= 1 && forall i :: 0 <= i < |s| ==> IsDigit(s[i])
  {
    if n < 10 then [DigitChar(n)] else Decimal(n / 10) + [DigitChar(n % 10)]
  }

  /** A number with leading zeros up to four digits; a larger number is written as it is. */
  function Padded(gen: nat): string {
    if gen < 10000 then
      [DigitChar(gen / 1000), DigitChar(gen / 100 % 10), DigitChar(gen / 10 % 10), DigitChar(gen % 10)]
    else
      Decimal(gen)
  }

  function Format(gen: nat, version: string): string {
    Padded(gen) + "-" + version
  }

  /** What the rest of a name matches: one or more characters other than a line break, up to the end or to a
      line break that ends the name. */
  function VersionPart(rest: string): Option<string> {
    if rest == "" then None
    else if '\n' !in rest then Some(rest)
    else if |rest| > 1 && rest[|rest| - 1] == '\n' && '\n' !in rest[..|rest| - 1] then Some(rest[..|rest| - 1])
    else None
  }

  function Split(name: string): Option<(nat, string)> {
    if || |name| < 6 || !IsDigit(name[0]) || !IsDigit(name[1]) || !IsDigit(name[2]) || !IsDigit(name[3])
       || name[4] != '-' then
      None
    else
      match VersionPart(name[5..])
      case None => None
      case Some(version) =>
        Some((1000 * DigitValue(name[0]) + 100 * DigitValue(name[1]) + 10 * DigitValue(name[2]) + DigitValue(name[3]),
              version))
  }

  predicate Nameable(gen: nat, version: string) {
    gen < 10000 && version != "" && '\n' !in version
  }

  lemma DigitRoundTrip(d: nat)
    requires d < 10
    ensures DigitValue(DigitChar(d)) == d
  {
  }

  lemma FourDigits(gen: nat)
    requires gen < 10000
    ensures gen / 1000 < 10
    ensures 1000 * (gen / 1000) + 100 * (gen / 100 % 10) + 10 * (gen / 10 % 10) + gen % 10 == gen
  {
    assert gen / 100 == gen / 10 / 10 && gen / 1000 == gen / 100 / 10;
  }

  lemma {:induction false} LongDecimal(n: nat, k: nat)
    requires k > 0 && (k == 1 || Power10(k - 1) <= n)
    ensures |Decimal(n)| >= k
    decreases k
  {
    if k > 1 {
      assert Power10(k - 1) == 10 * Power10(k - 2);
      assert n >= 10 && Power10(k - 2) <= n / 10;
      LongDecimal(n / 10, k - 1);
    }
  }

  function Power10(k: nat): (p: nat)
    ensures p >= 1
  {
    if k == 0 then 1 else 10 * Power10(k - 1)
  }

  /** A name is read back as what it was made from exactly when the generation has four digits and the version
      is not empty and has no line break. */
  lemma NamesRoundTripExactlyWhenNameable(gen: nat, version: string)
    ensures Split(Format(gen, version)) == Some((gen, version)) <==> Nameable(gen, version)
  {
    var name := Format(gen, version);
    if gen < 10000 {
      FourDigitName(gen, version);
    } else {
      assert Power10(4) == 10 * Power10(3) == 100 * Power10(2) == 1000 * Power10(1) == 10000;
      LongDecimal(gen, 5);
      assert name[4] == Decimal(gen)[4];
    }
  }

  lemma FourDigitName(gen: nat, version: string)
    requires gen < 10000
    ensures Split(Format(gen, version)) ==
            match VersionPart(version) case None => None case Some(v) => Some((gen, v))
    ensures VersionPart(version) == Some(version) <==> version != "" && '\n' !in version
  {
    var name := Format(gen, version);
    assert name[5..] == version;
    FourDigits(gen);
    DigitRoundTrip(gen / 1000);
    DigitRoundTrip(gen / 100 % 10);
    DigitRoundTrip(gen / 10 % 10);
    DigitRoundTrip(gen % 10);
  }

  predicate IsSpace(c: char) {
    c == ' ' || '\t' <= c <= '\r' || '\U{1C}' <= c <= '\U{1F}'
  }

  /** `safe_component`: the names that are not refused. */
  predicate Accepted(version: string) {
    && (exists i :: 0 <= i < |version| && !IsSpace(version[i]))
    && '/' !in version && '\\' !in version && '\0' !in version
    && version != ".."
  }

  // Where a name leads.

  /** The parts of a path between its slashes. */
  function Components(path: string): (parts: seq<string>)
    ensures parts != [] && forall part :: part in parts ==> '/' !in part
    decreases |path|
  {
    if path == "" then [""]
    else
      var rest := Components(path[1..]);
      if path[0] == '/' then [""] + rest else [[path[0]] + rest[0]] + rest[1..]
  }

  /** The directory a path leads to from another one. */
  function Walk(dir: seq<string>, parts: seq<string>): seq<string>
    decreases |parts|
  {
    if parts == [] then dir
    else
      var next := if parts[0] == "" || parts[0] == "." then dir
                  else if parts[0] == ".." then (if dir == [] then [] else dir[..|dir| - 1])
                  else dir + [parts[0]];
      Walk(next, parts[1..])
  }

  /** From every directory the name leads to one directly below, of that name. */
  ghost predicate LeadsBelow(name: string) {
    forall dir :: Walk(dir, Components(name)) == dir + [name]
  }

  lemma {:induction false} OneComponent(name: string)
    requires '/' !in name
    ensures Components(name) == [name]
    decreases |name|
  {
    if name != "" {
      OneComponent(name[1..]);
      assert [name[0]] + name[1..] == name;
    }
  }

  lemma WalkOne(dir: seq<string>, part: string)
    requires part != "" && part != "." && part != ".."
    ensures Walk(dir, [part]) == dir + [part]
  {
    assert [part][1..] == [];
  }

  lemma {:induction false} WalkVisits(dir: seq<string>, parts: seq<string>)
    requires (forall part :: part in dir ==> '/' !in part) && forall part :: part in parts ==> '/' !in part
    ensures forall part :: part in Walk(dir, parts) ==> '/' !in part
    decreases |parts|
  {
    if parts != [] {
      var next := if parts[0] == "" || parts[0] == "." then dir
                  else if parts[0] == ".." then (if dir == [] then [] else dir[..|dir| - 1])
                  else dir + [parts[0]];
      assert parts[0] in parts;
      WalkVisits(next, parts[1..]);
    }
  }

  /** A name leads to a directory of its own exactly if it has no slash and is neither empty nor one of the two dots. */
  lemma LeadsBelowExactly(name: string)
    ensures LeadsBelow(name) <==> '/' !in name && name != "" && name != "." && name != ".."
  {
    if '/' in name {
      WalkVisits([], Components(name));
      assert ([] + [name])[0] == name;
      assert Walk([], Components(name)) != [] + [name];
    } else {
      OneComponent(name);
      if name == "" || name == "." || name == ".." {
        assert [name][1..] == [];
        assert |Walk([], [name])| == 0;
        assert Walk([], Components(name)) != [] + [name];
      } else {
        forall dir
          ensures Walk(dir, Components(name)) == dir + [name]
        {
          WalkOne(dir, name);
        }
      }
    }
  }

  predicate Blank(name: string) {
    forall i :: 0 <= i < |name| ==> IsSpace(name[i])
  }

  /** Of the names without a backslash or a null character those are accepted that are not blank and lead to a
      directory of their own, and the single dot, which does not. */
  lemma AcceptedExactly(name: string)
    requires '\\' !in name && '\0' !in name
    ensures Accepted(name) <==> !Blank(name) && (LeadsBelow(name) || name == ".")
  {
    LeadsBelowExactly(name);
    assert "."[0] == '.';
  }

  /** Behind a generation every version that is not refused makes a directory of its own. */
  lemma VersionDirectoryLeadsBelow(gen: nat, version: string)
    requires Accepted(version)
    ensures LeadsBelow(Format(gen, version))
  {
    var name := Format(gen, version);
    PaddedIsANumber(gen);
    assert '/' !in Padded(gen);
    assert |Padded(gen)| >= 1 && IsDigit(name[0]);
    LeadsBelowExactly(name);
  }

  /** A version that is not refused is found again exactly when it has no line break. */
  lemma AcceptedNamesAreFoundExactlyWithoutLineBreak(gen: nat, version: string)
    requires gen < 10000 && Accepted(version)
    ensures Split(Format(gen, version)) == Some((gen, version)) <==> '\n' !in version
  {
    NamesRoundTripExactlyWhenNameable(gen, version);
  }

  lemma LineBreakKeepsAccepted(version: string)
    requires Accepted(version)
    ensures Accepted(version + "\n")
  {
    var i :| 0 <= i < |version| && !IsSpace(version[i]);
    assert (version + "\n")[i] == version[i];
    assert (version + "\n")[|version|] == '\n';
  }

  lemma LineBreakIsCutOff(version: string)
    requires version != "" && '\n' !in version
    ensures VersionPart(version + "\n") == Some(version)
  {
    assert (version + "\n")[|version|] == '\n';
    assert (version + "\n")[..|version|] == version;
  }

  /** A line break at the end is not refused either, and the tree is taken for one of another version. */
  lemma LineBreakAtTheEndIsLost(gen: nat, version: string)
    requires gen < 10000 && Accepted(version) && '\n' !in version
    ensures Accepted(version + "\n") && Split(Format(gen, version + "\n")) == Some((gen, version))
  {
    LineBreakKeepsAccepted(version);
    LineBreakIsCutOff(version);
    FourDigitName(gen, version + "\n");
  }

  // ---------------------------------------------------------------------------------------------
  // Different trees, different names

  predicate AllDigits(s: string) {
    forall i :: 0 <= i < |s| ==> IsDigit(s[i])
  }

  /** The number some digits stand for. */
  function Number(s: string): nat
    requires AllDigits(s)
    decreases |s|
  {
    if s == "" then 0 else 10 * Number(s[..|s| - 1]) + DigitValue(s[|s| - 1])
  }

  lemma NumberNext(s: string, c: char)
    requires AllDigits(s) && IsDigit(c)
    ensures AllDigits(s + [c]) && Number(s + [c]) == 10 * Number(s) + DigitValue(c)
  {
    assert (s + [c])[..|s|] == s;
  }

  lemma {:induction false} NumberOfDecimal(n: nat)
    ensures Number(Decimal(n)) == n
    decreases n
  {
    DigitRoundTrip(n % 10);
    if n < 10 {
      NumberNext("", DigitChar(n));
      assert "" + [DigitChar(n)] == Decimal(n);
    } else {
      NumberOfDecimal(n / 10);
      NumberNext(Decimal(n / 10), DigitChar(n % 10));
    }
  }

  lemma NumberOfFour(a: char, b: char, c: char, d: char)
    requires IsDigit(a) && IsDigit(b) && IsDigit(c) && IsDigit(d)
    ensures Number([a, b, c, d]) == 1000 * DigitValue(a) + 100 * DigitValue(b) + 10 * DigitValue(c) + DigitValue(d)
  {
    NumberNext("", a);
    NumberNext([a], b);
    NumberNext([a, b], c);
    NumberNext([a, b, c], d);
    assert "" + [a] == [a] && [a] + [b] == [a, b] && [a, b] + [c] == [a, b, c] && [a, b, c] + [d] == [a, b, c, d];
  }

  lemma PaddedIsANumber(gen: nat)
    ensures AllDigits(Padded(gen)) && Number(Padded(gen)) == gen
  {
    if gen < 10000 {
      FourDigits(gen);
      DigitRoundTrip(gen / 1000);
      DigitRoundTrip(gen / 100 % 10);
      DigitRoundTrip(gen / 10 % 10);
      DigitRoundTrip(gen % 10);
      NumberOfFour(DigitChar(gen / 1000), DigitChar(gen / 100 % 10), DigitChar(gen / 10 % 10), DigitChar(gen % 10));
    } else {
      NumberOfDecimal(gen);
    }
  }

  /** The first dash of a name ends its digits. */
  lemma FirstDash(a: string, x: string, b: string, y: string)
    requires AllDigits(a) && AllDigits(b) && a + "-" + x == b + "-" + y
    ensures a == b && x == y
  {
    var s := a + "-" + x;
    assert s[|a|] == '-' && s[|b|] == '-';
    assert forall i :: 0 <= i < |a| ==> s[i] == a[i] && IsDigit(s[i]);
    assert forall i :: 0 <= i < |b| ==> s[i] == b[i] && IsDigit(s[i]);
    assert |a| == |b|;
    assert a == s[..|a|] && b == s[..|b|] && x == s[|a| + 1..] && y == s[|b| + 1..];
  }

  /** Two different trees never get the same directory, however large the generation. */
  lemma NamesAreDistinct(gen: nat, version: string, gen': nat, version': string)
    requires Format(gen, version) == Format(gen', version')
    ensures gen == gen' && version == version'
  {
    PaddedIsANumber(gen);
    PaddedIsANumber(gen');
    FirstDash(Padded(gen), version, Padded(gen'), version');
  }
}
