/**
 * How the capture callback names the photo it hands to storage:
 * `photo_<label>_<uuid>.jpg`, where the label is the current button's
 * accessibility label or "unknown", and the uuid is a fresh UUID string.
 */
module PhotoFiles {
  import opened Wrappers

  newtype byte = x: int | 0 <= x < 256

  const PREFIX: string := "photo_"
  const SUFFIX: string := ".jpg"
  const UNKNOWN_LABEL: string := "unknown"

  /** What the capture callback hands to storage: the file name and the photo's data. */
  datatype WriteRequest = WriteRequest(fileName: string, image: seq<byte>)

  /** The label a photo is named after: the button's label when there is one,
      otherwise the placeholder "unknown". */
  function LabelOrUnknown(buttonLabel: Option<string>): (r: string)
    ensures buttonLabel.Some? ==> r == buttonLabel.value
    ensures buttonLabel.None? ==> r == UNKNOWN_LABEL
  {
    match buttonLabel
    case Some(l) => l
    case None => UNKNOWN_LABEL
  }

  /** The photo's file name: the prefix, then the label (or "unknown"), an
      underscore and the UUID string, then the suffix. */
  function FileName(buttonLabel: Option<string>, uuid: string): (name: string)
    ensures |name| == |PREFIX| + |LabelOrUnknown(buttonLabel)| + 1 + |uuid| + |SUFFIX|
    ensures name[..|PREFIX|] == PREFIX && name[|name| - |SUFFIX|..] == SUFFIX
    ensures name[|PREFIX|..|name| - |SUFFIX|] == LabelOrUnknown(buttonLabel) + "_" + uuid
  {
    PREFIX + LabelOrUnknown(buttonLabel) + "_" + uuid + SUFFIX
  }

  /** The characters of a UUID string: upper-case hexadecimal digits and hyphens. */
  predicate UuidChar(c: char) {
    ('0' <= c <= '9') || ('A' <= c <= 'F') || c == '-'
  }

  predicate UuidChars(uuid: string) {
    forall i :: 0 <= i < |uuid| ==> UuidChar(uuid[i])
  }

  /** The position of the last `c` in `s`, if any. */
  function LastIndexOf(s: string, c: char): (r: Option<nat>)
    ensures r.Some? ==> r.value < |s| && s[r.value] == c && forall j :: r.value < j < |s| ==> s[j] != c
    ensures r.None? ==> forall j :: 0 <= j < |s| ==> s[j] != c
    decreases |s|
  {
    if s == [] then None
    else if s[|s| - 1] == c then Some(|s| - 1)
    else LastIndexOf(s[..|s| - 1], c)
  }

  /** A name with the prefix and the suffix, whose middle has an underscore at
      `k`, is the file name of the two parts around that underscore. */
  lemma Reassemble(name: string, k: nat)
    requires |name| >= |PREFIX| + |SUFFIX|
    requires name[..|PREFIX|] == PREFIX && name[|name| - |SUFFIX|..] == SUFFIX
    requires k < |name| - |PREFIX| - |SUFFIX| && name[|PREFIX| + k] == '_'
    ensures var core := name[|PREFIX|..|name| - |SUFFIX|];
            FileName(Some(core[..k]), core[k + 1..]) == name
  {
    var core := name[|PREFIX|..|name| - |SUFFIX|];
    var l, u := core[..k], core[k + 1..];
    assert core == l + "_" + u;
    assert name == name[..|PREFIX|] + core + name[|name| - |SUFFIX|..];
    calc {
      FileName(Some(l), u);
      PREFIX + l + "_" + u + SUFFIX;
      { assert PREFIX + l + "_" + u == PREFIX + (l + "_" + u); }
      PREFIX + core + SUFFIX;
      name;
    }
  }

  /** Reads a file name back into its label and uuid, splitting at the last
      underscore; any name it accepts is the file name of what it returns. */
  function ParseFileName(name: string): (r: Option<(string, string)>)
    ensures r.Some? ==> FileName(Some(r.value.0), r.value.1) == name
  {
    if |name| >= |PREFIX| + |SUFFIX| && name[..|PREFIX|] == PREFIX && name[|name| - |SUFFIX|..] == SUFFIX then
      var core := name[|PREFIX|..|name| - |SUFFIX|];
      match LastIndexOf(core, '_')
      case None => None
      case Some(k) =>
        Reassemble(name, k);
        Some((core[..k], core[k + 1..]))
    else None
  }

  /** In `l + "_" + uuid` with no underscore in `uuid`, the last underscore is
      the one after `l`. */
  lemma {:induction false} LastUnderscore(l: string, uuid: string)
    requires UuidChars(uuid)
    ensures LastIndexOf(l + "_" + uuid, '_') == Some(|l|)
    decreases |uuid|
  {
    var core := l + "_" + uuid;
    if uuid != [] {
      var shorter := uuid[..|uuid| - 1];
      assert UuidChar(uuid[|uuid| - 1]);
      assert core[|core| - 1] == uuid[|uuid| - 1];
      assert core[..|core| - 1] == l + "_" + shorter;
      LastUnderscore(l, shorter);
    }
  }

  /** A file name built from a UUID string reads back as its label (or
      "unknown") and that UUID string. */
  lemma ParseFileNameRoundTrip(buttonLabel: Option<string>, uuid: string)
    requires UuidChars(uuid)
    ensures ParseFileName(FileName(buttonLabel, uuid)) == Some((LabelOrUnknown(buttonLabel), uuid))
  {
    var l := LabelOrUnknown(buttonLabel);
    var core := l + "_" + uuid;
    var name := PREFIX + core + SUFFIX;
    assert FileName(buttonLabel, uuid) == name;
    assert name[..|PREFIX|] == PREFIX;
    assert name[|name| - |SUFFIX|..] == SUFFIX;
    assert name[|PREFIX|..|name| - |SUFFIX|] == core;
    LastUnderscore(l, uuid);
    assert core[..|l|] == l;
    assert core[|l| + 1..] == uuid;
  }

  /** Two photos get the same file name only when they have the same label and
      the same UUID string, so distinct UUIDs never collide, even for one label. */
  lemma FileNameInjective(buttonLabel1: Option<string>, uuid1: string, buttonLabel2: Option<string>, uuid2: string)
    requires UuidChars(uuid1) && UuidChars(uuid2)
    requires FileName(buttonLabel1, uuid1) == FileName(buttonLabel2, uuid2)
    ensures LabelOrUnknown(buttonLabel1) == LabelOrUnknown(buttonLabel2) && uuid1 == uuid2
  {
    ParseFileNameRoundTrip(buttonLabel1, uuid1);
    ParseFileNameRoundTrip(buttonLabel2, uuid2);
  }
}
