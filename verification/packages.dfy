/** Dependency strings of the form `name==version` or `name`, as the core
    and each library are written in the project file, and the `name@version`
    argument handed to the toolchain's install commands. */
module Packages {
  import opened Wrappers
  import opened PyStrings

  const Separator: string := "=="

  /** A parsed dependency; an absent version asks for the latest release. */
  datatype Package = Package(name: string, version: Option<string>)

  /** Splits a dependency string on its first `==`. With a separator the name
      is the text before it, untrimmed, and the version is everything after
      it, further `==` included; without one the name is the stripped line. */
  function ParseVersion(line: string): (p: Package)
    ensures p.version.Some? <==> Occurs(line, Separator)
    ensures p.version.Some? ==> p.name + Separator + p.version.value == line
    ensures p.version.Some? ==> forall j :: 0 <= j < |p.name| ==> !OccursAt(line, Separator, j)
    ensures p.version.None? ==> IsStripOf(line, p.name)
  {
    match SplitOnce(line, Separator)
    case Some((name, version)) => Package(name, Some(version))
    case None => Package(Strip(line), None)
  }

  /** The package argument of `arduino-cli core install` and
      `arduino-cli lib install`; one rule serves both. */
  function InstallArgument(p: Package): (r: string)
    ensures p.name <= r
    ensures p.version.None? <==> |r| == |p.name|
    ensures p.version.Some? ==> r[|p.name|] == '@' && r[|p.name| + 1..] == p.version.value
  {
    match p.version
    case Some(v) => p.name + "@" + v
    case None => p.name
  }

  /** The install argument is the dependency string with its first `==`
      turned into `@`, or the stripped string when there is no `==`. */
  lemma InstallArgumentOfLine(line: string)
    ensures Find(line, Separator).Some? ==>
      var i := Find(line, Separator).value;
      InstallArgument(ParseVersion(line)) == line[..i] + "@" + line[i + 2..]
    ensures Find(line, Separator).None? ==>
      IsStripOf(line, InstallArgument(ParseVersion(line)))
  {
    match Find(line, Separator)
    case None =>
    case Some(i) =>
      var p := ParseVersion(line);
      assert OccursAt(line, Separator, i);
      assert |p.name| == i;
      assert line == p.name + Separator + p.version.value;
      assert p.version.value == line[i + 2..];
  }

  /** The text a dependency would be written as in the project file. */
  function Unparse(p: Package): string {
    match p.version
    case Some(v) => p.name + Separator + v
    case None => p.name
  }

  /** A package that can be written in the project file and read back: its
      name holds no `==`, cannot run into the separator, and, with no
      version, carries no surrounding whitespace. */
  ghost predicate Expressible(p: Package) {
    && !Occurs(p.name, Separator)
    && (p.name == [] || p.name[|p.name| - 1] != '=')
    && (p.version.None? ==> p.name == [] || (!IsSpace(p.name[0]) && !IsSpace(p.name[|p.name| - 1])))
  }

  /** Writing an expressible package and parsing it again gives it back. */
  lemma {:induction false} ParseUnparse(p: Package)
    requires Expressible(p)
    ensures ParseVersion(Unparse(p)) == p
  {
    var line := Unparse(p);
    match p.version
    case None =>
      assert !Occurs(line, Separator);
      assert StrippedAt(line, p.name, 0, |line|);
      StripUnique(line, p.name, ParseVersion(line).name);
    case Some(v) =>
      assert OccursAt(line, Separator, |p.name|);
      var q := ParseVersion(line);
      forall j | 0 <= j < |p.name| ensures !OccursAt(line, Separator, j) {
        if j + 2 <= |p.name| {
          assert line[j..j + 2] == p.name[j..j + 2];
          assert !OccursAt(p.name, Separator, j);
        } else {
          assert line[j..j + 2][0] == line[j] == p.name[j];
        }
      }
      assert OccursAt(line, Separator, |q.name|) by {
        assert line == q.name + Separator + q.version.value;
        assert line[|q.name|..|q.name| + 2] == Separator;
      }
      assert |q.name| == |p.name|;
      assert q.name == line[..|p.name|];
      assert q.version.value == line[|p.name| + 2..];
  }

  /** Worked examples of `_parse_version`. */
  lemma ParseVersionedExample()
    ensures ParseVersion("foo==1.2.3") == Package("foo", Some("1.2.3"))
  {
    var p := Package("foo", Some("1.2.3"));
    forall j ensures !OccursAt(p.name, Separator, j) {
      if 0 <= j && j + 2 <= 3 {
        assert p.name[j + 1] == 'o';
      }
    }
    assert !Occurs(p.name, Separator);
    assert Expressible(p);
    assert Unparse(p) == "foo==1.2.3";
    ParseUnparse(p);
  }

  lemma ParseBareExample()
    ensures ParseVersion("foo") == Package("foo", None)
  {
    ParseUnparse(Package("foo", None));
  }

  lemma ParsePaddedExample()
    ensures ParseVersion(" foo ") == Package("foo", None)
  {
    assert StrippedAt(" foo ", "foo", 1, 4);
    StripUnique(" foo ", "foo", ParseVersion(" foo ").name);
  }
}
