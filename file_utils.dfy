/** The upload folder, file names and file contents of the bookmarks
    upload: the string predicates that recognise them, the two extension
    helpers, and the assertions that turn a failed check into an
    `AssertionError`. */
module FileUtils {
  import opened Wrappers
  import opened Strings

  const UploadFolder: string := "/files/uploaded"
  const FileExtension: string := ".html"
  const FileType: string := "text/html"
  const FileDoctype: string := "<!DOCTYPE NETSCAPE-Bookmark-file-1>"
  const ExampleFileName: string := "bookmarks_example.html"

  /** `isFilePath(val)`: the piece after the first upload folder exists and
      ends with the extension. */
  predicate IsFilePath(val: string) {
    var pieces := Split(val, UploadFolder);
    |pieces| >= 2 && EndsWith(pieces[1], FileExtension)
  }

  /** `isFileName(val)` */
  predicate IsFileName(val: string) {
    !Includes(val, "/") && EndsWith(val, FileExtension) && |val| > |FileExtension|
  }

  /** `isFileContent(val)` */
  predicate IsFileContent(val: string) {
    StartsWith(val, FileDoctype)
  }

  /** `withoutExtension(fileName)`: the first `.html` is removed. */
  function WithoutExtension(fileName: string): string {
    ReplaceFirst(fileName, FileExtension, "")
  }

  /** `withExtension(name)` */
  function WithExtension(name: string): string {
    name + FileExtension
  }

  /** A value of unknown type, as the assertions receive it: a string, or
      a value of some other type, known by what `typeof` says of it. */
  datatype Unknown = Text(text: string) | Other(typeName: string)

  /** `typeof value` */
  function TypeOf(value: Unknown): string {
    match value
    case Text(_) => "string"
    case Other(typeName) => typeName
  }

  /** The message of `new AssertionError(name, value)`. */
  function AssertionMessage(name: string, value: Unknown): string {
    "Assertion failed: " + (if name == "" then "?" else name) + " (" + TypeOf(value) + ")"
  }

  /** `assertFileName(val)`: the narrowed name, or the error it throws. */
  function AssertFileName(val: Unknown): Result<string, string> {
    if !val.Text? || !IsFileName(val.text) then Err(AssertionMessage("assertFileName", val))
    else Ok(val.text)
  }

  /** `assertFileContent(val)`: the narrowed content, or the error it throws. */
  function AssertFileContent(val: Unknown): Result<string, string> {
    if !val.Text? || !IsFileContent(val.text) then Err(AssertionMessage("assertFileContent", val))
    else Ok(val.text)
  }

  // --- properties ---

  /** A file name has no `/`, ends with `.html` and has something before it. */
  lemma IsFileNameIff(val: string)
    ensures IsFileName(val) <==>
      '/' !in val && |val| > 5 && val[|val| - 5..] == ".html"
  {
    IncludesChar(val, '/');
  }

  /** Adding the extension gives a file name exactly when the name is not
      empty and has no `/`. */
  lemma WithExtensionIsFileName(name: string)
    ensures IsFileName(WithExtension(name)) <==> name != "" && '/' !in name
  {
    var f := WithExtension(name);
    IsFileNameIff(f);
    assert f[|f| - 5..] == ".html";
    assert '/' in f <==> '/' in name by {
      assert forall k :: 0 <= k < |name| ==> f[k] == name[k];
      assert '/' !in ".html";
    }
  }

  /** Removing the extension undoes adding it, for a name with no `.html`
      of its own. */
  lemma WithoutWithExtension(name: string)
    requires !Includes(name, FileExtension)
    ensures WithoutExtension(WithExtension(name)) == name
  {
    var f := name + ".html";
    assert OccursAt(f, ".html", |name|);
    forall j | 0 <= j < |name|
      ensures !OccursAt(f, ".html", j)
    {
      if j + 5 <= |name| {
        assert f[j..j + 5] == name[j..j + 5];
        assert !OccursAt(name, ".html", j);
      } else if j + 5 <= |f| {
        assert f[j..j + 5][|name| - j] == f[|name|] == '.';
      }
    }
    assert IndexOf(f, ".html") == Some(|name|);
    assert f[..|name|] == name;
  }

  /** Only the first `.html` is removed. */
  lemma WithoutExtensionFirstOnly()
    ensures WithoutExtension("a" + ".html" + ".html") == "a" + ".html"
  {
    var f := "a" + ".html" + ".html";
    assert OccursAt(f, ".html", 1);
    assert !OccursAt(f, ".html", 0) by { assert f[0] != '.'; }
    assert f[6..] == ".html";
  }

  /** A path made of any prefix that does not hold the upload folder, the
      upload folder, `/` and a file name is a file path; a text that never
      mentions the upload folder is not. */
  lemma FilePathProperties(prefix: string, name: string, val: string)
    requires !Includes(prefix, UploadFolder)
    requires IsFileName(name)
    ensures IsFilePath(prefix + UploadFolder + "/" + name)
    ensures !Includes(val, UploadFolder) ==> !IsFilePath(val)
  {
    var rest := "/" + name;
    assert prefix + UploadFolder + "/" + name == prefix + UploadFolder + rest;
    UploadFolderUnbordered();
    FirstAfterPart(prefix, UploadFolder, rest);
    NoUploadFolderAfterSlash(name);
    IsFileNameIff(name);
    assert rest[|rest| - 5..] == name[|name| - 5..];
  }

  /** The upload folder has no proper prefix that is also a suffix: its
      only `/` after the first is followed by `u`, not `f`. */
  lemma UploadFolderUnbordered()
    ensures Unbordered(UploadFolder)
  {
    forall k | 0 < k < |UploadFolder|
      ensures UploadFolder[|UploadFolder| - k..] != UploadFolder[..k]
    {
      assert UploadFolder[..k][0] == '/';
      assert UploadFolder[|UploadFolder| - k..][0] == UploadFolder[|UploadFolder| - k];
      if k == 9 {
        assert UploadFolder[..k][1] == 'f';
        assert UploadFolder[|UploadFolder| - k..][1] == 'u';
      }
    }
  }

  /** An absolute path is a file path when it holds the upload folder only
      where the file name follows. */
  lemma AbsoluteFilePath()
    ensures IsFilePath("/srv" + UploadFolder + "/" + ExampleFileName)
  {
    assert |"/srv"| < |UploadFolder|;
    ExampleFileNameIsFileName();
    FilePathProperties("/srv", ExampleFileName, "");
  }

  /** A file name has no `/`, so `/` and a file name never hold the upload
      folder, whose eighth character is a `/`. */
  lemma NoUploadFolderAfterSlash(name: string)
    requires IsFileName(name)
    ensures IndexOf("/" + name, UploadFolder) == None
  {
    IsFileNameIff(name);
    var rest := "/" + name;
    forall j | 0 <= j && j + |UploadFolder| <= |rest|
      ensures !OccursAt(rest, UploadFolder, j)
    {
      assert rest[j + 6] == name[j + 5];
      assert UploadFolder[6] == '/';
      assert rest[j..j + |UploadFolder|][6] == rest[j + 6];
    }
  }

  /** Every text that opens with the doctype is file content, whatever
      follows it, and nothing shorter than the doctype is. */
  lemma IsFileContentProperties(rest: string, val: string)
    ensures IsFileContent(FileDoctype + rest)
    ensures |val| < |FileDoctype| ==> !IsFileContent(val)
  {
  }

  /** `assertFileName` passes a string that is a file name through and
      fails otherwise, with a message naming the check and the value's
      type. */
  lemma AssertFileNameProperties(val: Unknown)
    ensures AssertFileName(val).Ok? <==> val.Text? && IsFileName(val.text)
    ensures AssertFileName(val).Ok? ==> AssertFileName(val).value == val.text
    ensures AssertFileName(val).Err? ==>
      AssertFileName(val).error == "Assertion failed: " + "assertFileName" + " (" + TypeOf(val) + ")"
  {
  }

  /** `assertFileContent` passes a string that is file content through and
      fails otherwise. */
  lemma AssertFileContentProperties(val: Unknown)
    ensures AssertFileContent(val).Ok? <==> val.Text? && IsFileContent(val.text)
    ensures AssertFileContent(val).Ok? ==> AssertFileContent(val).value == val.text
    ensures AssertFileContent(val).Err? ==>
      AssertFileContent(val).error == "Assertion failed: " + "assertFileContent" + " (" + TypeOf(val) + ")"
  {
  }

  /** The example file name is a file name. */
  lemma ExampleFileNameIsFileName()
    ensures IsFileName(ExampleFileName)
  {
    assert ExampleFileName == "bookmarks_example" + FileExtension;
    WithExtensionIsFileName("bookmarks_example");
  }
}
