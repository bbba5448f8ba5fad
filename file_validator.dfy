/**
  The file-type gate of the upload: a file is accepted when its declared MIME
  type is one of three spreadsheet types, or when the lower-cased suffix of its
  name from the last dot is one of three spreadsheet extensions.
*/
module FileValidator {
  import opened JsBuiltins

  /** A file chosen in the browser: its name, its declared MIME type and its text. */
  datatype FileInfo = FileInfo(name: string, mimeType: string, text: string)

  const AllowedTypes: seq<string> := [
    "text/csv",
    "application/vnd.ms-excel",
    "application/vnd.openxmlformats-officedocument.spreadsheetml.sheet"
  ]

  const AllowedExtensions: seq<string> := [".csv", ".xlsx", ".xls"]

  /**
    `name.toLowerCase().slice(name.lastIndexOf('.'))`: without a dot the index
    is -1, so the slice keeps only the last character.
  */
  function FileExtension(name: string): string {
    SliceFrom(ToLower(name), LastIndexOf(name, '.'))
  }

  /** `validateFile`: either test alone suffices. */
  predicate ValidateFile(file: FileInfo) {
    file.mimeType in AllowedTypes || FileExtension(file.name) in AllowedExtensions
  }

  /** The name ends with the lower-case suffix, ignoring the case of the name. */
  predicate EndsWithIgnoringCase(name: string, suffix: string) {
    |suffix| <= |name| && ToLower(name[|name| - |suffix|..]) == suffix
  }

  /** A name without a dot yields at most one character, which is no allowed extension. */
  lemma NoDotNoExtension(name: string)
    requires '.' !in name
    ensures |FileExtension(name)| <= 1
    ensures FileExtension(name) !in AllowedExtensions
  {
    assert LastIndexOf(name, '.') == -1;
  }

  /**
    For an extension that starts with its only dot and is lower case, the
    extension test yields it exactly when the name ends with it, ignoring case.
  */
  lemma ExtensionIsSuffix(name: string, ext: string)
    requires |ext| >= 2 && ext[0] == '.' && '.' !in ext[1..]
    requires forall i :: 0 <= i < |ext| ==> !IsUpper(ext[i])
    ensures FileExtension(name) == ext <==> EndsWithIgnoringCase(name, ext)
  {
    var p := LastIndexOf(name, '.');
    if FileExtension(name) == ext {
      if p == -1 {
        NoDotNoExtension(name);
        assert false;
      }
      ToLowerSuffix(name, p);
      assert |name| - p == |ext|;
    }
    if EndsWithIgnoringCase(name, ext) {
      var m := |name| - |ext|;
      assert LowerChar(name[m]) == ToLower(name[m..])[0] == '.';
      assert name[m] == '.';
      forall j | m < j < |name| ensures name[j] != '.' {
        assert LowerChar(name[j]) == ToLower(name[m..])[j - m] == ext[j - m];
        assert ext[j - m] == ext[1..][j - m - 1];
      }
      assert p == m;
      ToLowerSuffix(name, m);
    }
  }

  /** The extension test is a case-insensitive suffix test for the three extensions. */
  lemma ExtensionTestIff(name: string)
    ensures FileExtension(name) in AllowedExtensions <==>
      EndsWithIgnoringCase(name, ".csv") ||
      EndsWithIgnoringCase(name, ".xlsx") ||
      EndsWithIgnoringCase(name, ".xls")
  {
    ExtensionIsSuffix(name, ".csv");
    ExtensionIsSuffix(name, ".xlsx");
    ExtensionIsSuffix(name, ".xls");
  }

  /** `validateFile` accepts exactly an allowed MIME type or a name ending in an allowed extension. */
  lemma ValidateFileIff(file: FileInfo)
    ensures ValidateFile(file) <==>
      file.mimeType in AllowedTypes ||
      EndsWithIgnoringCase(file.name, ".csv") ||
      EndsWithIgnoringCase(file.name, ".xlsx") ||
      EndsWithIgnoringCase(file.name, ".xls")
  {
    ExtensionTestIff(file.name);
  }

  /** A file without a dot in its name is accepted only on its MIME type. */
  lemma NoDotNeedsMimeType(file: FileInfo)
    requires '.' !in file.name
    ensures ValidateFile(file) <==> file.mimeType in AllowedTypes
  {
    NoDotNoExtension(file.name);
  }

  /** An upper-case extension overrides a MIME type outside the allow-list. */
  lemma MislabeledCsvAccepted(text: string)
    ensures ValidateFile(FileInfo("contacts.CSV", "application/octet-stream", text))
  {
    var name := "contacts.CSV";
    assert name[|name| - 4..] == ".CSV";
    assert ToLower(".CSV") == ".csv";
    ExtensionTestIff(name);
  }
}
