/**
  The upload filter of the article controller: before a cover image is
  written to disk, the extension of the uploaded file's original name is
  compared, lower-cased, with an allow-list. The extension is everything from
  the last '.' on; JavaScript clamps the -1 that lastIndexOf returns for a name
  without a '.' to 0, so such a name is its own "extension".
 */
module FileFilter {

  /** The extensions an upload may have, compared after lower-casing. */
  const ALLOWED_FILE_TYPES: seq<string> := [".jpg", ".png"]

  /** What the filter tells the upload interceptor. A rejection carries the
      extension exactly as it appears in the file name (not lower-cased). */
  datatype FilterOutcome = Accept | Reject(ext: string)

  /** String.prototype.lastIndexOf for one character: the index of the last
      occurrence of c in s, or -1 when c does not occur. */
  function LastIndexOf(s: string, c: char): (r: int)
    ensures -1 <= r < |s|
    ensures r == -1 <==> c !in s
    ensures r >= 0 ==> s[r] == c && c !in s[r + 1..]
    decreases |s|
  {
    if |s| == 0 then -1
    else if s[|s| - 1] == c then |s| - 1
    else
      assert s == s[..|s| - 1] + [s[|s| - 1]];
      LastIndexOf(s[..|s| - 1], c)
  }

  /** String.prototype.substring with a single argument: a negative start
      counts as 0 and a start past the end as the length. */
  function Substring(s: string, start: int): string {
    if start <= 0 then s
    else if start >= |s| then []
    else s[start..]
  }

  /** Lower-casing of one character (ASCII letters only). */
  function LowerChar(c: char): char {
    if 'A' <= c <= 'Z' then (c as int - 'A' as int + 'a' as int) as char else c
  }

  /** String.prototype.toLowerCase, character by character. */
  function ToLowerCase(s: string): (r: string)
    ensures |r| == |s|
    ensures forall i :: 0 <= i < |s| ==> r[i] == LowerChar(s[i])
  {
    seq(|s|, i requires 0 <= i < |s| => LowerChar(s[i]))
  }

  /** The extension the filter computes: the suffix of the name starting at
      its last '.', or the whole name when it has no '.'. */
  function Extension(name: string): (ext: string)
    ensures '.' in name ==>
      && 0 < |ext| <= |name| && ext[0] == '.' && '.' !in ext[1..]
      && name == name[..|name| - |ext|] + ext
    ensures '.' !in name ==> ext == name
  {
    Substring(name, LastIndexOf(name, '.'))
  }

  /** The fileFilter callback: accept exactly when the lower-cased extension
      is on the allow-list, otherwise reject naming the extension as written. */
  function Filter(originalName: string): (r: FilterOutcome)
    ensures r == Accept || r == Reject(Extension(originalName))
  {
    var ext := Extension(originalName);
    if ToLowerCase(ext) in ALLOWED_FILE_TYPES then Accept else Reject(ext)
  }

  /** Independent description of the accepted names: the last four characters,
      lower-cased, are ".jpg" or ".png". */
  predicate HasAllowedSuffix(name: string) {
    |name| >= 4 && ToLowerCase(name[|name| - 4..]) in ALLOWED_FILE_TYPES
  }

  /** Lower-casing maps a '.' to itself and nothing else to a '.'. */
  lemma LowerCharKeepsDot(c: char)
    ensures LowerChar(c) == '.' <==> c == '.'
  {
  }

  /** A text whose lower-cased form is an allowed type is four characters
      long, starts with '.' and has no other '.'. */
  lemma {:induction false} AllowedShape(t: string)
    requires ToLowerCase(t) in ALLOWED_FILE_TYPES
    ensures |t| == 4 && t[0] == '.' && '.' !in t[1..]
  {
    var low := ToLowerCase(t);
    assert low == ".jpg" || low == ".png";
    assert |t| == 4;
    assert low[0] == LowerChar(t[0]) == '.';
    LowerCharKeepsDot(t[0]);
    forall j | 1 <= j < 4
      ensures t[j] != '.'
    {
      LowerCharKeepsDot(t[j]);
      assert low[j] != '.';
    }
    assert forall j | 0 <= j < 3 :: t[1..][j] == t[j + 1];
  }

  /** A name without any '.' is rejected, and the rejection names the whole
      file name as its extension. */
  lemma {:induction false} NoDotRejectsWholeName(name: string)
    requires '.' !in name
    ensures Filter(name) == Reject(name)
  {
    if ToLowerCase(name) in ALLOWED_FILE_TYPES {
      AllowedShape(name);
      assert false;
    }
  }

  /** Every accepted name ends in an allowed suffix. */
  lemma {:induction false} AcceptedHasAllowedSuffix(name: string)
    requires Filter(name) == Accept
    ensures HasAllowedSuffix(name)
  {
    var ext := Extension(name);
    AllowedShape(ext);
    if '.' !in name {
      NoDotRejectsWholeName(name);
      assert false;
    }
    assert ext == name[|name| - 4..];
  }

  /** Every name ending in an allowed suffix is accepted. */
  lemma {:induction false} AllowedSuffixAccepted(name: string)
    requires HasAllowedSuffix(name)
    ensures Filter(name) == Accept
  {
    var n := |name|;
    var t := name[n - 4..];
    AllowedShape(t);
    assert name[n - 4] == '.';
    assert LastIndexOf(name, '.') == n - 4;
    assert Extension(name) == t;
  }

  /** A name is accepted exactly when it ends in ".jpg" or ".png", in any case. */
  lemma {:induction false} FilterAcceptsExactlyAllowedSuffixes(name: string)
    ensures Filter(name) == Accept <==> HasAllowedSuffix(name)
  {
    if Filter(name) == Accept {
      AcceptedHasAllowedSuffix(name);
    }
    if HasAllowedSuffix(name) {
      AllowedSuffixAccepted(name);
    }
  }

  /** A name made of any prefix and an extension whose lower-cased form is
      allowed ends in an allowed suffix. */
  lemma {:induction false} AllowedExtensionSuffix(prefix: string, ext: string)
    requires ToLowerCase(ext) in ALLOWED_FILE_TYPES
    ensures HasAllowedSuffix(prefix + ext)
  {
    AllowedShape(ext);
    assert (prefix + ext)[|prefix + ext| - 4..] == ext;
  }

  /** The case of the extension does not matter. */
  lemma UpperCaseExtensionAccepted()
    ensures Filter("photo.JPG") == Accept
  {
    assert ToLowerCase(".JPG") == ".jpg";
    AllowedExtensionSuffix("photo", ".JPG");
    assert "photo" + ".JPG" == "photo.JPG";
    AllowedSuffixAccepted("photo.JPG");
  }

  /** Only the text after the last '.' matters. */
  lemma DoubleExtensionAccepted()
    ensures Filter("a.tar.png") == Accept
  {
    assert ToLowerCase(".png") == ".png";
    AllowedExtensionSuffix("a.tar", ".png");
    assert "a.tar" + ".png" == "a.tar.png";
    AllowedSuffixAccepted("a.tar.png");
  }

  /** A disallowed extension is rejected and reported as written, in its
      original case. */
  lemma GifRejected()
    ensures Filter("x.GIF") == Reject(".GIF")
  {
    assert !HasAllowedSuffix("x.GIF") by {
      assert "x.GIF"[1..] == ".GIF";
      assert ToLowerCase(".GIF") == ".gif";
    }
    FilterAcceptsExactlyAllowedSuffixes("x.GIF");
    assert LastIndexOf("x.GIF", '.') == 1;
  }

  /** The plain lower-case form is accepted. */
  lemma LowerCaseExtensionAccepted()
    ensures Filter("photo.jpg") == Accept
  {
    assert ToLowerCase(".jpg") == ".jpg";
    AllowedExtensionSuffix("photo", ".jpg");
    assert "photo" + ".jpg" == "photo.jpg";
    AllowedSuffixAccepted("photo.jpg");
  }
}
