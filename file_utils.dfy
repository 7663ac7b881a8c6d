/** The file-intake rules of src/utils/fileUtils.ts and the constants of
    src/config/constants.ts they use. */
module FileUtils {
  import opened Types
  import opened Text

  /** The parts of a browser `File` the rules look at: `name`, `type` and
      `size` in bytes. */
  datatype File = File(name: string, fileType: string, size: nat)

  /** `APP_CONFIG.maxFileSize`: 5 MB. */
  const MaxFileSize: nat := 5 * 1024 * 1024

  const NoFile: string := "No file selected. Please upload a file first."
  const InvalidFile: string := "Invalid file type. Please upload a valid file."
  /** The message template with `maxFileSize / 1024 / 1024` filled in. */
  const FileTooLarge: string := "File size exceeds the maximum limit of 5MB."

  /** One entry of the accepted list admits the file: it is the file's MIME
      type or ends its lower-cased name. */
  predicate Accepts(file: File, entry: string) {
    file.fileType == entry || EndsWith(Lower(file.name), entry)
  }

  /** `acceptedTypes.some(type => file.type === type ||
      file.name.toLowerCase().endsWith(type))`, tried in list order. */
  function TypeAccepted(file: File, acceptedTypes: seq<string>): (r: bool)
    ensures r <==> exists i :: 0 <= i < |acceptedTypes| && Accepts(file, acceptedTypes[i])
  {
    if |acceptedTypes| == 0 then false
    else
      Accepts(file, acceptedTypes[0]) || TypeAccepted(file, acceptedTypes[1..])
  }

  /** `validateFile`: a missing file, then a wrong type, then an oversized
      file is rejected, each with its own message; the size limit itself is
      allowed. */
  function ValidateFile(file: Option<File>, acceptedTypes: seq<string>): (r: ValidationResult)
    ensures r.valid <==> file.Some? && TypeAccepted(file.value, acceptedTypes) && file.value.size <= MaxFileSize
    ensures r.valid <==> r.error.None?
    ensures file.None? ==> r.error == Some(NoFile)
    ensures file.Some? && !TypeAccepted(file.value, acceptedTypes) ==> r.error == Some(InvalidFile)
    ensures r.error == Some(FileTooLarge) <==>
      file.Some? && TypeAccepted(file.value, acceptedTypes) && file.value.size > MaxFileSize
  {
    if file.None? then ValidationResult(false, Some(NoFile))
    else if !TypeAccepted(file.value, acceptedTypes) then ValidationResult(false, Some(InvalidFile))
    else if file.value.size > MaxFileSize then ValidationResult(false, Some(FileTooLarge))
    else ValidationResult(true, None)
  }

  /** The type is checked before the size: a file of the wrong type that is
      also too large is reported as being of the wrong type. */
  lemma WrongTypeBeforeSize(file: File, acceptedTypes: seq<string>)
    requires !TypeAccepted(file, acceptedTypes) && file.size > MaxFileSize
    ensures ValidateFile(Some(file), acceptedTypes) == ValidationResult(false, Some(InvalidFile))
  {
  }

  /** Exactly 5 MB is accepted and one byte more is refused. */
  lemma SizeLimitInclusive(name: string, fileType: string, acceptedTypes: seq<string>)
    requires TypeAccepted(File(name, fileType, 0), acceptedTypes)
    ensures ValidateFile(Some(File(name, fileType, 5242880)), acceptedTypes).valid
    ensures ValidateFile(Some(File(name, fileType, 5242881)), acceptedTypes).error == Some(FileTooLarge)
  {
    assert TypeAccepted(File(name, fileType, 5242880), acceptedTypes);
    assert TypeAccepted(File(name, fileType, 5242881), acceptedTypes);
  }

  /** The first position not in the 32-bit unsigned range. */
  const TwoTo32: int := 0x1_0000_0000

  /** `x >>> 0`: the integer taken modulo 2^32, as JavaScript's `ToUint32`. */
  function ToUint32(x: int): (r: nat)
    ensures r < TwoTo32 && (r - x) % TwoTo32 == 0
    ensures 0 <= x < TwoTo32 ==> r == x
    ensures -TwoTo32 <= x < 0 ==> r == x + TwoTo32
  {
    x % TwoTo32
  }

  /** `String.prototype.slice(start)` for a non-negative start: empty once the
      start is at or past the end. */
  function SliceFrom(s: string, start: nat): (r: string)
    ensures start < |s| ==> r == s[start..]
    ensures start >= |s| ==> r == ""
  {
    if start < |s| then s[start..] else ""
  }

  /** `getFileExtension`: slice from `((lastIndexOf('.') - 1) >>> 0) + 2`, then
      lower-case. A missing dot (index -1) or a leading dot (index 0) wraps the
      start round to 2^32 or 2^32 + 1, past the end of any shorter name. */
  function GetFileExtension(filename: string): string
  {
    Lower(SliceFrom(filename, ToUint32(LastIndexOf(filename, '.') - 1) + 2))
  }

  /** Where the slice starts: just after the last dot when that dot is not
      the first character, and past the end otherwise. */
  lemma ExtensionStart(filename: string)
    requires |filename| <= TwoTo32
    ensures var p := LastIndexOf(filename, '.');
            var start := ToUint32(p - 1) + 2;
            (p >= 1 ==> start == p + 1) && (p < 1 ==> start >= |filename|)
  {
  }

  /** The dot after which nothing holds a dot is the last one. */
  lemma LastDotAt(filename: string, i: int)
    ensures 0 <= i < |filename| && filename[i] == '.' && '.' !in filename[i + 1..] ==>
      LastIndexOf(filename, '.') == i
  {
    var p := LastIndexOf(filename, '.');
    if 0 <= i < |filename| && p > i {
      assert filename[i + 1..][p - i - 1] == '.';
    }
  }

  /** For names no longer than 2^32 characters: the lower-cased text after
      the last dot, or nothing when there is no dot or the last dot is the
      first character. */
  lemma ExtensionAfterLastDot(filename: string)
    requires |filename| <= TwoTo32
    ensures '.' !in filename ==> GetFileExtension(filename) == ""
    ensures forall i :: 0 <= i < |filename| && filename[i] == '.' && '.' !in filename[i + 1..] ==>
      GetFileExtension(filename) == if i == 0 then "" else Lower(filename[i + 1..])
  {
    ExtensionStart(filename);
    assert '.' !in filename ==> LastIndexOf(filename, '.') == -1;
    forall i | 0 <= i < |filename| && filename[i] == '.' && '.' !in filename[i + 1..]
      ensures LastIndexOf(filename, '.') == i
    {
      LastDotAt(filename, i);
    }
  }

  /** The pattern `/\.[^/.]+$/` matches at `i`: a dot there, followed by at
      least one character, none of them a slash or a dot, up to the end. */
  predicate ExtensionAt(s: string, i: int) {
    && 0 <= i && i + 1 < |s|
    && s[i] == '.'
    && forall k :: i < k < |s| ==> s[k] != '/' && s[k] != '.'
  }

  /** `getFileNameWithoutExtension`: `replace(/\.[^/.]+$/, '')`. Only the last
      dot can start a match, since the run after the dot holds no dot. */
  function GetFileNameWithoutExtension(filename: string): string
  {
    var p := LastIndexOf(filename, '.');
    if 0 <= p && p + 1 < |filename| && '/' !in filename[p + 1..] then filename[..p] else filename
  }

  /** A match can only start at the last dot, and is followed by no slash. */
  lemma ExtensionAtLastDot(filename: string, i: int)
    ensures ExtensionAt(filename, i) ==>
      LastIndexOf(filename, '.') == i && '/' !in filename[i + 1..]
  {
    LastDotAt(filename, i);
    if ExtensionAt(filename, i) {
      assert '.' !in filename[i + 1..] && '/' !in filename[i + 1..] by {
        forall k | i < k < |filename| ensures filename[i + 1..][k - i - 1] == filename[k] {
        }
      }
    }
  }

  /** When the function cuts, the pattern matches at the last dot. */
  lemma CutIsExtension(filename: string)
    ensures var p := LastIndexOf(filename, '.');
            0 <= p && p + 1 < |filename| && '/' !in filename[p + 1..] ==> ExtensionAt(filename, p)
  {
    var p := LastIndexOf(filename, '.');
    if 0 <= p && p + 1 < |filename| && '/' !in filename[p + 1..] {
      forall k | p < k < |filename| ensures filename[k] != '/' {
        assert filename[k] == filename[p + 1..][k - p - 1];
      }
    }
  }

  /** The result is always a prefix of the name. */
  lemma NameWithoutExtensionIsPrefix(filename: string)
    ensures var r := GetFileNameWithoutExtension(filename);
            |r| <= |filename| && r == filename[..|r|]
  {
  }

  /** Where the pattern matches, the name loses the matched extension. */
  lemma RemovesExtension(filename: string, i: int)
    requires ExtensionAt(filename, i)
    ensures GetFileNameWithoutExtension(filename) == filename[..i]
  {
    ExtensionAtLastDot(filename, i);
  }

  /** Where the pattern matches nowhere, the name is unchanged. */
  lemma KeepsUnmatchedName(filename: string)
    requires forall i :: !ExtensionAt(filename, i)
    ensures GetFileNameWithoutExtension(filename) == filename
  {
    CutIsExtension(filename);
  }
}
