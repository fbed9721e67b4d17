/**
 * The two name compositions of the PDF controller: the name a stored upload
 * gets on disk (its uuid followed by the extension of the uploaded name) and
 * the display name a rename produces (the new name followed by the extension
 * of the old display name). Both rest on Node's `path.extname`, modelled here
 * as ExtName for a single file name (one without '/').
 */
module Names {
  import opened Common

  /** Index of the last '.' in `name`, if there is one. */
  function LastDot(name: string): (r: Option<nat>)
    ensures r.Some? ==> r.value < |name| && name[r.value] == '.'
    ensures r.Some? ==> forall j :: r.value < j < |name| ==> name[j] != '.'
    ensures r.None? ==> forall j :: 0 <= j < |name| ==> name[j] != '.'
  {
    if name == [] then None
    else if name[|name| - 1] == '.' then Some(|name| - 1)
    else LastDot(name[..|name| - 1])
  }

  /** What `path.extname` can return: nothing, or a '.' followed by no other '.'. */
  predicate IsExtension(e: string)
  {
    e == "" || (e[0] == '.' && forall j :: 1 <= j < |e| ==> e[j] != '.')
  }

  /**
   * Node's `path.extname` on a name without '/': the suffix that starts at
   * the last '.', or "" when the name has no '.', when its last '.' is its
   * first character (".bashrc"), or when the name is "..".
   */
  function ExtName(name: string): (e: string)
    ensures IsExtension(e)
    ensures |e| <= |name| && e == name[|name| - |e|..]
    ensures e != "" ==> |e| < |name|
  {
    match LastDot(name)
    case None => ""
    case Some(i) => if i == 0 || name == ".." then "" else name[i..]
  }

  /** A non-empty extension is the suffix from the last '.', when that '.' is not the first character. */
  lemma ExtNameAtLastDot(name: string, i: nat)
    requires 0 < i < |name| && name[i] == '.' && name != ".."
    requires forall j :: i < j < |name| ==> name[j] != '.'
    ensures ExtName(name) == name[i..]
  {
  }

  /** A name whose only '.' (if any) is its first character, and "..", have no extension. */
  lemma ExtNameEmpty(name: string)
    requires name == ".." || forall j :: 0 < j < |name| ==> name[j] != '.'
    ensures ExtName(name) == ""
  {
    match LastDot(name)
    case None =>
    case Some(k) =>
      assert k == 0 || name == "..";
  }

  /** The text `uuidv4` produces: 36 characters, lower-case hexadecimal digits and '-'. */
  predicate IsUuidText(u: string)
  {
    |u| == 36 && forall j :: 0 <= j < |u| ==> IsUuidChar(u[j])
  }

  predicate IsUuidChar(c: char)
  {
    '0' <= c <= '9' || 'a' <= c <= 'f' || c == '-'
  }

  /** A uuid in textual form never holds a '.'. */
  lemma UuidHasNoDot(u: string)
    requires IsUuidText(u)
    ensures forall j :: 0 <= j < |u| ==> u[j] != '.'
  {
    forall j | 0 <= j < |u| ensures u[j] != '.' {
      assert IsUuidChar(u[j]);
    }
  }

  /** The extension of a dot-free, non-empty stem followed by an extension is that extension. */
  lemma {:induction false} ExtNameOfStemPlusExtension(stem: string, e: string)
    requires stem != "" && forall j :: 0 <= j < |stem| ==> stem[j] != '.'
    requires IsExtension(e)
    ensures ExtName(stem + e) == e
  {
    var name := stem + e;
    if e == "" {
      assert name == stem;
      ExtNameEmpty(name);
    } else {
      assert name[|stem|] == '.';
      assert name != ".." by { assert name[0] == stem[0]; }
      forall j | |stem| < j < |name| ensures name[j] != '.' {
        assert name[j] == e[j - |stem|];
      }
      ExtNameAtLastDot(name, |stem|);
      assert name[|stem|..] == e;
    }
  }

  /** The name an upload is stored under: `uuid + extname(originalname)`. */
  function StorageName(uuid: string, originalName: string): (r: string)
    ensures |r| >= |uuid| && r[..|uuid|] == uuid
  {
    uuid + ExtName(originalName)
  }

  /** The stored file keeps the extension of the uploaded name. */
  lemma StorageNameKeepsExtension(uuid: string, originalName: string)
    requires IsUuidText(uuid)
    ensures ExtName(StorageName(uuid, originalName)) == ExtName(originalName)
  {
    UuidHasNoDot(uuid);
    ExtNameOfStemPlusExtension(uuid, ExtName(originalName));
  }

  /** Distinct uuids give distinct stored names, whatever the uploaded names were. */
  lemma StorageNameInjective(u1: string, o1: string, u2: string, o2: string)
    requires IsUuidText(u1) && IsUuidText(u2) && u1 != u2
    ensures StorageName(u1, o1) != StorageName(u2, o2)
  {
    var n1, n2 := StorageName(u1, o1), StorageName(u2, o2);
    assert n1[..36] == u1 && n2[..36] == u2;
  }

  /** The display name a rename produces: `newName + extname(oldName)`. */
  function RenamedName(newName: string, oldName: string): (r: string)
    ensures |r| >= |newName| && r[..|newName|] == newName && IsExtension(r[|newName|..])
    ensures newName != "" ==> r != ""
  {
    newName + ExtName(oldName)
  }

  /**
   * A rename keeps the old extension, as long as the old name had one; the
   * one exception is the rename of a name ending in a bare "." to ".", which
   * gives "..", a name without extension.
   */
  lemma RenameKeepsExtension(newName: string, oldName: string)
    requires newName != "" && ExtName(oldName) != ""
    requires RenamedName(newName, oldName) != ".."
    ensures ExtName(RenamedName(newName, oldName)) == ExtName(oldName)
  {
    var e := ExtName(oldName);
    var name := newName + e;
    assert name[|newName|] == '.';
    forall j | |newName| < j < |name| ensures name[j] != '.' {
      assert name[j] == e[j - |newName|];
    }
    ExtNameAtLastDot(name, |newName|);
    assert name[|newName|..] == e;
  }

  /** Renaming twice reattaches the first extension, whatever dots the new names hold. */
  lemma RenameTwice(first: string, second: string, oldName: string)
    requires first != "" && ExtName(oldName) != ""
    requires RenamedName(first, oldName) != ".."
    ensures RenamedName(second, RenamedName(first, oldName)) == second + ExtName(oldName)
  {
    RenameKeepsExtension(first, oldName);
  }

  /** Renaming "x.pdf" to "report" and then to "final.v2" gives "report.pdf", then "final.v2.pdf". */
  lemma RenameExample()
    ensures RenamedName("report", "x.pdf") == "report.pdf"
    ensures RenamedName("final.v2", "report.pdf") == "final.v2.pdf"
  {
    ExtNameAtLastDot("x.pdf", 1);
    assert "x.pdf"[1..] == ".pdf";
    ExtNameAtLastDot("report.pdf", 6);
    assert "report.pdf"[6..] == ".pdf";
  }

  /**
   * A record without an extension takes the tail of a dotted new name as
   * its extension: "report" renamed to "final.v2" gives "final.v2", and a
   * second rename to "x" gives "x.v2".
   */
  lemma RenameDottedNameBecomesExtension()
    ensures RenamedName("final.v2", "report") == "final.v2"
    ensures RenamedName("x", "final.v2") == "x.v2"
  {
    ExtNameEmpty("report");
    ExtNameAtLastDot("final.v2", 5);
    assert "final.v2"[5..] == ".v2";
  }

  /**
   * On a name holding '/', `ExtName` departs from Node's `path.extname`,
   * which looks only after the last '/': for "a.b/c" it gives ".b/c" where
   * Node gives "".
   */
  lemma ExtNameAcrossSlash()
    ensures ExtName("a.b/c") == ".b/c"
  {
    ExtNameAtLastDot("a.b/c", 1);
    assert "a.b/c"[1..] == ".b/c";
  }

  /** The "..": renaming "a." to "." gives "..", whose extension is empty. */
  lemma RenameToDotLosesExtension()
    ensures ExtName("a.") == "." && RenamedName(".", "a.") == ".."
    ensures ExtName("..") == ""
  {
    ExtNameAtLastDot("a.", 1);
  }
}
