/** The extension extractor `get_file_extension` (server.c:105-116): the text
    after the last dot of a file name, found with `strrchr`. */
module FileExtension {
  import opened Bytes

  /** `strrchr(s, c)`: the index of the last occurrence of `c`, if any. */
  function LastIndexOf(s: seq<Byte>, c: Byte): (r: Option<nat>)
    ensures r.None? <==> c !in s
    ensures r.Some? ==> r.value < |s| && s[r.value] == c && c !in s[r.value + 1..]
  {
    if s == [] then None
    else if s[|s| - 1] == c then Some(|s| - 1)
    else
      var r := LastIndexOf(s[..|s| - 1], c);
      assert s == s[..|s| - 1] + [s[|s| - 1]];
      r
  }

  /** `name` has a dot somewhere after its first byte. */
  predicate HasInnerDot(name: seq<Byte>) {
    exists i :: 0 < i < |name| && name[i] == Dot
  }

  /** The extension of `name`: empty when there is no dot, or when the last
      dot is the first byte; otherwise everything after the last dot. */
  function GetFileExtension(name: seq<Byte>): (ext: seq<Byte>)
    ensures Dot !in ext
    ensures !HasInnerDot(name) ==> ext == []
    ensures HasInnerDot(name) ==>
      |ext| + 1 < |name| && name[|name| - |ext| - 1] == Dot && ext == name[|name| - |ext|..]
  {
    match LastIndexOf(name, Dot)
    case None => []
    case Some(dot) =>
      if dot == 0 then
        assert forall i :: 0 < i < |name| ==> name[i] == name[dot + 1..][i - 1];
        []
      else
        assert forall i :: dot < i < |name| ==> name[i] == name[dot + 1..][i - dot - 1];
        name[dot + 1..]
  }

  /** The extension is determined by a split of the name: whenever
      `name == stem + "." + ext` with a non-empty stem and a dot-free `ext`,
      that `ext` is the one returned. */
  lemma ExtensionOfSplit(stem: seq<Byte>, ext: seq<Byte>)
    requires stem != [] && Dot !in ext
    ensures GetFileExtension(stem + [Dot] + ext) == ext
  {
    var name := stem + [Dot] + ext;
    assert name[|stem|] == Dot;
  }

  /** The examples `a.txt`, `a.` and `a.b.c`: the suffix after the last dot. */
  lemma ExtensionExamplesDotted()
    ensures GetFileExtension("a.txt") == "txt"
    ensures GetFileExtension("a.") == ""
    ensures GetFileExtension("a.b.c") == "c"
  {
    var a: seq<Byte>, txt: seq<Byte>, ab: seq<Byte>, c: seq<Byte> := "a", "txt", "a.b", "c";
    assert a + [Dot] + txt == "a.txt";
    ExtensionOfSplit(a, txt);
    assert a + [Dot] + [] == "a.";
    ExtensionOfSplit(a, []);
    assert ab + [Dot] + c == "a.b.c";
    ExtensionOfSplit(ab, c);
  }

  /** The examples `.bashrc` (a dot file) and `noext`: no extension. */
  lemma ExtensionExamplesUndotted(name: seq<Byte>)
    requires name == ".bashrc" || name == "noext"
    ensures GetFileExtension(name) == ""
  {
    assert !HasInnerDot(name) by {
      forall i | 0 < i < |name| ensures name[i] != Dot {
        if name == ".bashrc" { assert name[1..] == "bashrc"; assert name[i] == name[1..][i - 1]; }
      }
    }
  }
}
