/** The extension filter of the file helpers. */
module FileUtils {
  import opened Wrappers
  import opened Text
  import Config

  /** `filename.rsplit(".", 1)[1]`: the text after the last dot, or None
      when the name has no dot. */
  function LastDotExtension(filename: string): (ext: Option<string>)
    ensures ext.None? <==> '.' !in filename
    ensures ext.Some? ==> '.' !in ext.value
    ensures ext.Some? ==> exists i :: 0 <= i < |filename| && filename[i] == '.' && filename[i + 1..] == ext.value
  {
    match LastIndexOf(filename, '.')
    case None => None
    case Some(i) => Some(filename[i + 1..])
  }

  /** `allowed_file(filename)`. `allowed` is the configured extension set,
      None when the configuration is missing: the lookup then raises and the
      handler answers false. */
  function AllowedFile(filename: string, allowed: Option<set<string>>): (ok: bool)
    ensures '.' !in filename ==> !ok
    ensures allowed.None? ==> !ok
    ensures ok <==> ('.' in filename && allowed.Some?
                     && Lower(LastDotExtension(filename).value) in allowed.value)
  {
    if '.' !in filename then false
    else match allowed
      case None => false
      case Some(extensions) => Lower(LastDotExtension(filename).value) in extensions
  }

  /** The check ignores case: an upper-case Python file is accepted. */
  lemma UpperCaseExtensionAccepted()
    ensures AllowedFile("A.PY", Some(Config.AllowedExtensions))
  {
    LastIndexOfIs("A.PY", '.', 1);
    assert Lower("PY") == "py";
  }

  /** Only the last dot counts: "archive.py.txt" is a text file. */
  lemma OnlyLastDotCounts()
    ensures !AllowedFile("archive.py.txt", Some(Config.AllowedExtensions))
    ensures AllowedFile("archive.txt.py", Some(Config.AllowedExtensions))
  {
    assert "archive.py.txt"[11..] == "txt";
    LastIndexOfIs("archive.py.txt", '.', 10);
    assert Lower("txt") == "txt";
    assert "archive.txt.py"[12..] == "py";
    LastIndexOfIs("archive.txt.py", '.', 11);
    assert Lower("py") == "py";
  }

  /** A name ending in a dot has an empty extension and is refused, whatever
      comes before the dot. */
  lemma TrailingDotRejected(filename: string)
    requires filename != [] && filename[|filename| - 1] == '.'
    ensures !AllowedFile(filename, Some(Config.AllowedExtensions))
  {
    assert LastIndexOf(filename, '.') == Some(|filename| - 1);
    assert Lower([]) == [];
  }
}
