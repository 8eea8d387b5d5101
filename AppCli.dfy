/**
  The two string helpers of the command-line configuration: the knowledge-base
  name of a file name (the file name without its last extension) and the path
  of the knowledge-base file (the knowledge-base folder followed by the name).
 */
module AppCli {

  /**
    Java's `String.lastIndexOf(char)`: the position of the last occurrence of
    `ch` in `s`, or -1 when `s` does not hold `ch`. Positions count characters
    (Unicode scalar values), whereas Java counts UTF-16 code units: in a name
    holding a character outside the Basic Multilingual Plane, such as an emoji,
    the two positions differ, but the prefix before the '.' is the same.
   */
  function LastIndexOf(s: string, ch: char): (i: int)
    ensures -1 <= i < |s|
    ensures i == -1 <==> ch !in s
    ensures 0 <= i ==> s[i] == ch && ch !in s[i + 1..]
  {
    if s == [] then -1
    else if s[|s| - 1] == ch then |s| - 1
    else
      assert s == s[..|s| - 1] + [s[|s| - 1]];
      var i := LastIndexOf(s[..|s| - 1], ch);
      assert 0 <= i ==> s[i + 1..] == s[..|s| - 1][i + 1..] + [s[|s| - 1]];
      i
  }

  /**
    `getNameKB`: everything of the file name before its last '.', or the whole
    name when it has no '.'.
   */
  function NameKB(fullnameKB: string): (name: string)
    ensures |name| <= |fullnameKB| && fullnameKB[..|name|] == name
    ensures '.' !in fullnameKB <==> name == fullnameKB
    ensures '.' in fullnameKB ==>
              fullnameKB[|name|] == '.' && '.' !in fullnameKB[|name| + 1..]
  {
    var index := LastIndexOf(fullnameKB, '.');
    if index != -1 then fullnameKB[..index] else fullnameKB
  }

  /** Only the final extension is stripped: a stem keeps every '.' of its own. */
  lemma StripsLastExtension(stem: string, ext: string)
    requires '.' !in ext
    ensures NameKB(stem + ['.'] + ext) == stem
  {
    var s := stem + ['.'] + ext;
    assert s[|stem|] == '.';
    assert s[|stem| + 1..] == ext;
    assert s[..|stem|] == stem;
  }

  /** The name is shorter than the file name exactly when the file name has a '.'. */
  lemma NameShorterIffDot(fullnameKB: string)
    ensures |NameKB(fullnameKB)| < |fullnameKB| <==> '.' in fullnameKB
  {
  }

  /** The file name "a.b.c" names the knowledge base "a.b". */
  lemma NameKBExample()
    ensures NameKB("a.b.c") == "a.b"
  {
    StripsLastExtension("a.b", "c");
    assert "a.b" + ['.'] + "c" == "a.b.c";
  }

  /** The configuration fields the helpers read: the knowledge-base folder and name. */
  datatype AppConfig = AppConfig(kbPath: string, nameKB: string)
  {
    /** `getKBFilepath`: the folder followed by the name. */
    function KBFilepath(): (path: string)
      ensures |path| == |kbPath| + |nameKB|
      ensures path[..|kbPath|] == kbPath && path[|kbPath|..] == nameKB
    {
      kbPath + nameKB
    }
  }
}
