/** The pure checks inside the profile settings page
    (Online/user/setting/js/script.js): the new-username guard and the name that is
    stored, the extension taken from the chosen file's path, the format and size
    guards on the photo, and the storage path the photo is uploaded to. Strings are
    sequences of characters in the same ASCII model as the chat filter. */
module ProfileSettings {
  import opened Ascii

  const MinUsernameLength: nat := 4
  const MaxUsernameLength: nat := 20

  /** The outcome of confirming the username prompt: an alert for a name that is too
      short or too long, or the text shown on the page and the name written to the
      user record. */
  datatype UsernameEdit = TooShort | TooLong | Renamed(shown: string, stored: string)

  /** `res.replace(/ /g, '')`: every U+0020 space removed; tabs and other whitespace
      are kept. */
  function RemoveSpaces(s: string): (r: string)
    decreases |s|
    ensures ' ' !in r
    ensures |r| == |s| - multiset(s)[' ']
    ensures forall c :: c != ' ' ==> multiset(r)[c] == multiset(s)[c]
  {
    if |s| == 0 then ""
    else
      assert s == s[..|s| - 1] + [s[|s| - 1]];
      var init := RemoveSpaces(s[..|s| - 1]);
      if s[|s| - 1] == ' ' then init else init + [s[|s| - 1]]
  }

  /** Text without spaces is kept as it is. */
  lemma {:induction false} RemoveSpacesNoSpace(s: string)
    decreases |s|
    requires ' ' !in s
    ensures RemoveSpaces(s) == s
  {
    if |s| > 0 {
      assert s[..|s| - 1] + [s[|s| - 1]] == s;
      RemoveSpacesNoSpace(s[..|s| - 1]);
    }
  }

  /** The `onyes` handler: the length bounds are tested on the raw input, the page
      shows `@` and the raw input, and the record receives the input without spaces. */
  function EditUsername(res: string): (e: UsernameEdit)
    ensures e.TooShort? <==> |res| < MinUsernameLength
    ensures e.TooLong? <==> MinUsernameLength <= |res| && |res| > MaxUsernameLength
    ensures e.Renamed? <==> MinUsernameLength <= |res| <= MaxUsernameLength
    ensures e.Renamed? ==> e.shown == "@" + res && ' ' !in e.stored
    ensures e.Renamed? ==> |e.stored| == |res| - multiset(res)[' ']
    ensures e.Renamed? ==> e.stored == RemoveSpaces(res)
  {
    if |res| < MinUsernameLength then TooShort
    else if |res| > MaxUsernameLength then TooLong
    else Renamed("@" + res, RemoveSpaces(res))
  }

  /** A space is dropped and any other character is kept. */
  lemma RemoveSpacesChar(c: char)
    ensures RemoveSpaces([c]) == if c == ' ' then "" else [c]
  {
    assert [c][..0] == "";
  }

  /** Removing spaces works piece by piece: the pieces of the input come out in
      their order. With RemoveSpacesChar this fixes the result on every input, so
      the characters that are kept also keep their order. */
  lemma {:induction false} RemoveSpacesAppend(a: string, b: string)
    decreases |b|
    ensures RemoveSpaces(a + b) == RemoveSpaces(a) + RemoveSpaces(b)
  {
    if |b| == 0 {
      assert a + b == a;
    } else {
      var init := b[..|b| - 1];
      assert (a + b)[..|a + b| - 1] == a + init;
      assert (a + b)[|a + b| - 1] == b[|b| - 1];
      RemoveSpacesAppend(a, init);
    }
  }

  /** An accepted name typed as two parts around a space is stored as the two parts,
      in order, each without its spaces. */
  lemma StoredNameJoinsParts(a: string, b: string)
    requires EditUsername(a + " " + b).Renamed?
    ensures EditUsername(a + " " + b).stored == RemoveSpaces(a) + RemoveSpaces(b)
  {
    RemoveSpacesAppend(a + " ", b);
    RemoveSpacesAppend(a, " ");
    RemoveSpacesChar(' ');
  }

  /** An accepted name keeps every character other than a space, with its number of
      occurrences. */
  lemma StoredNameKeepsOtherCharacters(res: string, c: char)
    requires EditUsername(res).Renamed? && c != ' '
    ensures multiset(EditUsername(res).stored)[c] == multiset(res)[c]
  {
  }

  /** Because the bounds are checked before the spaces are removed, a stored name can
      be shorter than the minimum: "ab c" passes and is stored as "abc". */
  lemma StoredNameCanBeShort()
    ensures EditUsername("ab c") == Renamed("@ab c", "abc")
    ensures |EditUsername("ab c").stored| < MinUsernameLength
  {
    assert "ab c"[..3] == "ab ";
    assert "ab "[..2] == "ab";
    RemoveSpacesNoSpace("ab");
  }

  /** `s.lastIndexOf(c)`: the position of the last `c`, or -1 when there is none. */
  function LastIndexOf(s: string, c: char): (k: int)
    decreases |s|
    ensures -1 <= k < |s|
    ensures k >= 0 ==> s[k] == c
    ensures forall j :: k < j < |s| ==> s[j] != c
  {
    if |s| == 0 then -1
    else if s[|s| - 1] == c then |s| - 1
    else LastIndexOf(s[..|s| - 1], c)
  }

  /** `value.slice((Math.max(0, value.lastIndexOf(".")) || Infinity) + 1)`. When the
      last dot is missing (-1, raised to 0) or is the first character (0), the
      falsy 0 turns into Infinity and the slice is empty. */
  function Extension(value: string): (ext: string)
    ensures '.' !in ext
    ensures |ext| < |value| ==> ext == value[|value| - |ext|..]
    ensures ext != "" ==> |ext| + 1 < |value| && value[|value| - |ext| - 1] == '.'
  {
    var last := LastIndexOf(value, '.');
    var start := if last < 0 then 0 else last;
    if start == 0 then "" else value[start + 1..]
  }

  /** A name with a non-empty part before its last dot yields the part after it. */
  lemma ExtensionAfterDot(base: string, ext: string)
    requires |base| > 0 && '.' !in ext
    ensures Extension(base + "." + ext) == ext
  {
    var value := base + "." + ext;
    var k := LastIndexOf(value, '.');
    assert value[|base|] == '.';
    assert value[|base| + 1..] == ext;
  }

  /** A name without a dot has no extension. */
  lemma ExtensionNoDot(value: string)
    requires '.' !in value
    ensures Extension(value) == ""
  {
  }

  /** A name whose only dot is its first character has no extension either: ".png"
      is not a PNG file to this check. */
  lemma ExtensionLeadingDot(ext: string)
    requires '.' !in ext
    ensures Extension("." + ext) == ""
  {
  }

  const AllowedFormats: seq<string> := ["jpg", "jpeg", "png", "webp"]

  /** The size ceiling in bytes; a file of exactly this size is accepted. */
  const MaxPhotoSize: nat := 2102394

  /** The outcome of choosing a file: the format alert, the size alert, or the
      extension (in its original casing) that the upload will use. */
  datatype PhotoCheck = BadFormat | TooLarge | PhotoOk(ext: string)

  /** The `onchange` guards: the format check comes first, then the size check. */
  function CheckPhoto(value: string, size: nat): (r: PhotoCheck)
    ensures r.BadFormat? <==> Lower(Extension(value)) !in AllowedFormats
    ensures r.TooLarge? <==> Lower(Extension(value)) in AllowedFormats && size > MaxPhotoSize
    ensures r.PhotoOk? <==> Lower(Extension(value)) in AllowedFormats && size <= MaxPhotoSize
    ensures r.PhotoOk? ==> r.ext == Extension(value)
  {
    var ext := Extension(value);
    if Lower(ext) !in AllowedFormats then BadFormat
    else if size > MaxPhotoSize then TooLarge
    else PhotoOk(ext)
  }

  /** An accepted photo has one of the four extensions up to case, has a dot before
      it, and its size is at most the ceiling. */
  lemma AcceptedPhoto(value: string, size: nat)
    requires CheckPhoto(value, size).PhotoOk?
    ensures var ext := CheckPhoto(value, size).ext;
      3 <= |ext| <= 4 && |ext| + 1 < |value| && value[|value| - |ext| - 1] == '.' &&
      Lower(ext) in AllowedFormats && size <= MaxPhotoSize
  {
    var ext := Extension(value);
    assert |Lower(ext)| == |ext|;
  }

  /** The storage path of the uploaded photo: `image/<uid>/profile.<ext>`. */
  function UploadPath(uid: string, ext: string): string {
    "image/" + uid + "/profile." + ext
  }

  /** The extension is recovered from the upload path exactly, casing included. */
  lemma UploadPathExtension(uid: string, ext: string)
    requires '.' !in ext
    ensures Extension(UploadPath(uid, ext)) == ext
  {
    assert UploadPath(uid, ext) == ("image/" + uid + "/profile") + "." + ext;
    ExtensionAfterDot("image/" + uid + "/profile", ext);
  }

  /** Different users or different extensions never share an upload path. */
  lemma UploadPathInjective(uid1: string, ext1: string, uid2: string, ext2: string)
    requires '.' !in ext1 && '.' !in ext2
    requires UploadPath(uid1, ext1) == UploadPath(uid2, ext2)
    ensures uid1 == uid2 && ext1 == ext2
  {
    UploadPathExtension(uid1, ext1);
    UploadPathExtension(uid2, ext2);
    var p1, p2 := UploadPath(uid1, ext1), UploadPath(uid2, ext2);
    assert |uid1| == |uid2|;
    assert uid1 == p1[6..6 + |uid1|];
    assert uid2 == p2[6..6 + |uid2|];
  }

  /** A file whose path ends in ".PNG" and whose size is exactly the ceiling passes;
      one byte more is refused; ".png" alone is refused as a bad format. */
  lemma PhotoBoundaries()
    ensures CheckPhoto("me.PNG", MaxPhotoSize) == PhotoOk("PNG")
    ensures CheckPhoto("me.PNG", MaxPhotoSize + 1) == TooLarge
    ensures CheckPhoto(".png", 0) == BadFormat
    ensures UploadPath("u1", "PNG") == "image/u1/profile.PNG"
  {
    ExtensionAfterDot("me", "PNG");
    assert "me" + "." + "PNG" == "me.PNG";
    assert Lower("PNG") == "png";
    ExtensionLeadingDot("png");
    assert "." + "png" == ".png";
  }
}
