/** The name of the firmware image a build writes: the sketch path up to its
    first `.`, an optional `_v` version segment, the build time and `Z.bin`. */
module Artifact {
  import opened Wrappers
  import opened PyStrings

  /** Directory the compile command writes into. */
  const OutputDir: string := "dist/"

  /** A build time as `strftime("%Y%m%d_%H%M%S")` renders it: eight digits,
      an underscore, six digits. It is read from the local clock although
      the name labels it `Z`. */
  predicate IsTimestamp(t: string) {
    && |t| == 15
    && t[8] == '_'
    && forall k :: 0 <= k < 15 && k != 8 ==> '0' <= t[k] <= '9'
  }

  /** The sketch path with everything from its first `.` removed. The cut
      is at the first dot anywhere in the path, directories included. */
  function Stem(sketch: string): string {
    Head(sketch, '.')
  }

  /** The `_v` segment for a project version, dots turned into underscores. */
  function VersionTag(version: Option<string>): (tag: string)
    ensures version.None? <==> tag == []
    ensures '.' !in tag
    ensures version.Some? ==> |tag| == |version.value| + 2 && tag[..2] == "_v"
    ensures version.Some? ==> forall k :: 0 <= k < |version.value| ==>
      tag[k + 2] == (if version.value[k] == '.' then '_' else version.value[k])
  {
    match version
    case None => []
    case Some(v) => "_v" + ReplaceChar(v, '.', '_')
  }

  /** Length of the part that follows the version segment: `_`, the
      timestamp, `Z.bin`. */
  function SuffixLength(stamp: string): nat {
    |stamp| + 6
  }

  /** The output file name, laid out as stem, version segment, suffix. */
  function OutputName(sketch: string, version: Option<string>, stamp: string): (name: string)
    ensures |name| == |Stem(sketch)| + |VersionTag(version)| + SuffixLength(stamp)
    ensures name[..|Stem(sketch)|] == Stem(sketch)
    ensures name[|Stem(sketch)|..|name| - SuffixLength(stamp)] == VersionTag(version)
    ensures name[|name| - SuffixLength(stamp)..] == "_" + stamp + "Z.bin"
  {
    var stem := Stem(sketch);
    var tag := VersionTag(version);
    var name := stem + tag + "_" + stamp + "Z" + ".bin";
    var suffix := "_" + stamp + "Z.bin";
    assert name == stem + tag + suffix;
    assert name[..|stem|] == stem;
    assert name[|stem|..|stem| + |tag|] == tag;
    assert name[|stem| + |tag|..] == suffix;
    name
  }

  /** With a well-formed timestamp the only `.` in the output name is the
      one before `bin`, so cutting the name at its first dot, as the stem
      rule does, leaves everything but the extension. */
  lemma {:induction false} OutputNameSingleDot(sketch: string, version: Option<string>, stamp: string)
    requires IsTimestamp(stamp)
    ensures var name := OutputName(sketch, version, stamp);
      && (forall k :: 0 <= k < |name| - 4 ==> name[k] != '.')
      && Head(name, '.') + ".bin" == name
  {
    var name := OutputName(sketch, version, stamp);
    var stem := Stem(sketch);
    var tag := VersionTag(version);
    var cut := |name| - SuffixLength(stamp);
    forall k | 0 <= k < |name| - 4 ensures name[k] != '.' {
      if k < |stem| {
        assert name[k] == name[..|stem|][k] == stem[k];
      } else if k < cut {
        assert name[k] == name[|stem|..cut][k - |stem|] == tag[k - |stem|];
      } else {
        assert name[k] == name[cut..][k - cut] == ("_" + stamp + "Z.bin")[k - cut];
        if 1 <= k - cut <= 15 {
          assert name[k] == stamp[k - cut - 1];
        }
      }
    }
    HeadBeforeOnlyDot(name, |name| - 4);
    assert name == name[..|name| - 4] + ".bin" by {
      assert name[|name| - 4..] == ("_" + stamp + "Z.bin")[|stamp| + 2..];
    }
  }

  /** If `s[i]` is the first `c` in `s`, the head of `s` is `s[..i]`. */
  lemma HeadBeforeOnlyDot(s: string, i: nat)
    requires i < |s| && s[i] == '.'
    requires forall k :: 0 <= k < i ==> s[k] != '.'
    ensures Head(s, '.') == s[..i]
  {
  }

  /** The timestamp can be read back from the end of an output name. */
  lemma OutputNameStamp(sketch: string, version: Option<string>, stamp: string)
    requires IsTimestamp(stamp)
    ensures var name := OutputName(sketch, version, stamp);
      name[|name| - 20..|name| - 5] == stamp
  {
    var name := OutputName(sketch, version, stamp);
    assert name[|name| - 20..|name| - 5] == name[|name| - 21..][1..16];
  }

  /** Two builds of the same sketch and version at different times write
      different files. */
  lemma OutputNameSeparatesStamps(sketch: string, version: Option<string>, t1: string, t2: string)
    requires IsTimestamp(t1) && IsTimestamp(t2) && t1 != t2
    ensures OutputName(sketch, version, t1) != OutputName(sketch, version, t2)
  {
    OutputNameStamp(sketch, version, t1);
    OutputNameStamp(sketch, version, t2);
  }

  /** Worked examples of the output name for sketch `blink.ino`. */
  lemma BlinkUnversioned(stamp: string)
    requires IsTimestamp(stamp)
    ensures OutputName("blink.ino", None, stamp) == "blink_" + stamp + "Z.bin"
  {
    var stem := Stem("blink.ino");
    assert stem == "blink" by {
      BlinkStem();
    }
    assert OutputName("blink.ino", None, stamp) == stem + [] + "_" + stamp + "Z" + ".bin";
    assert stem + [] + "_" == "blink_";
  }

  lemma BlinkVersioned(stamp: string)
    requires IsTimestamp(stamp)
    ensures OutputName("blink.ino", Some("1.0.2"), stamp) == "blink_v1_0_2_" + stamp + "Z.bin"
  {
    BlinkVersionedHead();
    assert OutputName("blink.ino", Some("1.0.2"), stamp)
        == (Stem("blink.ino") + VersionTag(Some("1.0.2")) + "_") + stamp + ("Z" + ".bin");
  }

  lemma BlinkVersionedHead()
    ensures Stem("blink.ino") + VersionTag(Some("1.0.2")) + "_" == "blink_v1_0_2_"
  {
    BlinkStem();
    BlinkTag();
  }

  lemma BlinkTag()
    ensures VersionTag(Some("1.0.2")) == "_v1_0_2"
  {
    var r := ReplaceChar("1.0.2", '.', '_');
    assert r[0] == '1' && r[1] == '_' && r[2] == '0' && r[3] == '_' && r[4] == '2';
    assert r == "1_0_2";
  }

  lemma BlinkStem()
    ensures Stem("blink.ino") == "blink"
  {
    HeadBeforeOnlyDot("blink.ino", 5);
  }
}
