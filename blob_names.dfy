/**
 * The name under which Create stores an uploaded image in the blob container:
 * GetRandomBlobName in both controllers. The tick count (already formatted) and
 * the GUID are nondeterministic, so they are parameters. Path.GetExtension is a
 * library call; Extension below is a stand-in that scans back from the end of the
 * file name for a '.' before any directory separator, as that method does.
 */
module BlobNames {
  import opened Optional

  /** The directory separators Path.GetExtension stops at. */
  predicate IsDirectorySeparator(c: char)
  {
    c == '/' || c == '\\'
  }

  /** No '.' and no directory separator in s[lo..hi]. */
  predicate NoDotOrSeparator(s: string, lo: nat, hi: nat)
    requires hi <= |s|
  {
    forall j :: lo <= j < hi ==> s[j] != '.' && !IsDirectorySeparator(s[j])
  }

  /**
   * The file name has an extension starting at index k: a '.' that is not the last
   * character and after which there is neither a '.' nor a directory separator.
   */
  predicate IsExtensionAt(fileName: string, k: int)
  {
    0 <= k < |fileName| - 1 && fileName[k] == '.' && NoDotOrSeparator(fileName, k + 1, |fileName|)
  }

  /**
   * Scanning fileName[..i] backwards: the index of the first '.' met before any
   * directory separator, or None when a separator or the start comes first.
   */
  function ExtensionDot(fileName: string, i: nat): (r: Option<nat>)
    requires i <= |fileName|
    ensures r.Some? ==> r.value < i && fileName[r.value] == '.' && NoDotOrSeparator(fileName, r.value + 1, i)
    ensures r.None? ==> forall k :: 0 <= k < i && fileName[k] == '.' ==> !NoDotOrSeparator(fileName, k + 1, i)
  {
    if i == 0 then None
    else if fileName[i - 1] == '.' then Some(i - 1)
    else if IsDirectorySeparator(fileName[i - 1]) then None
    else ExtensionDot(fileName, i - 1)
  }

  /**
   * Path.GetExtension: from the extension's '.' to the end, or "" when the name has
   * no '.' after its last separator or ends in '.'.
   */
  function Extension(fileName: string): (ext: string)
    ensures ext != "" ==> IsExtensionAt(fileName, |fileName| - |ext|) && ext == fileName[|fileName| - |ext|..]
    ensures forall k :: IsExtensionAt(fileName, k) ==> ext == fileName[k..]
  {
    match ExtensionDot(fileName, |fileName|)
    case None => ""
    case Some(k) => if k == |fileName| - 1 then "" else fileName[k..]
  }

  predicate EndsWith(s: string, suffix: string)
  {
    |suffix| <= |s| && s[|s| - |suffix|..] == suffix
  }

  /** string.Format("{0:10}_{1}{2}", ticks, guid, ext), with the ticks already formatted. */
  function GetRandomBlobName(fileName: string, ticks: string, guid: string): (name: string)
    ensures |name| == |ticks| + 1 + |guid| + |Extension(fileName)|
    ensures name[..|ticks|] == ticks && name[|ticks|] == '_'
    ensures name[|ticks| + 1..|ticks| + 1 + |guid|] == guid
    ensures EndsWith(name, Extension(fileName))
  {
    ticks + "_" + guid + Extension(fileName)
  }

  /**
   * With the same tick string, names of equal-length GUIDs (a GUID's text always
   * has 36 characters) coincide only when the GUIDs and the extensions do.
   */
  lemma BlobNameInjective(f1: string, f2: string, ticks: string, g1: string, g2: string)
    requires |g1| == |g2|
    requires GetRandomBlobName(f1, ticks, g1) == GetRandomBlobName(f2, ticks, g2)
    ensures g1 == g2 && Extension(f1) == Extension(f2)
  {
    var n1, n2 := GetRandomBlobName(f1, ticks, g1), GetRandomBlobName(f2, ticks, g2);
    var lo := |ticks| + 1;
    assert g1 == n1[lo..lo + |g1|];
    assert g2 == n2[lo..lo + |g2|];
    assert Extension(f1) == n1[lo + |g1|..];
    assert Extension(f2) == n2[lo + |g2|..];
  }

  /**
   * When neither the tick string nor the GUID holds a '.' or a separator (true of
   * a formatted number and of a GUID), the blob name has the uploaded file's extension.
   */
  lemma BlobNameKeepsExtension(fileName: string, ticks: string, guid: string)
    requires NoDotOrSeparator(ticks, 0, |ticks|) && NoDotOrSeparator(guid, 0, |guid|)
    ensures Extension(GetRandomBlobName(fileName, ticks, guid)) == Extension(fileName)
  {
    var ext := Extension(fileName);
    var name := GetRandomBlobName(fileName, ticks, guid);
    var stem := |ticks| + 1 + |guid|;
    assert name == ticks + "_" + guid + ext;
    forall j | 0 <= j < stem ensures name[j] != '.' {
      if j < |ticks| {
        assert name[j] == ticks[j];
      } else if j > |ticks| {
        assert name[j] == guid[j - |ticks| - 1];
      }
    }
    if ext != "" {
      var k := |fileName| - |ext|;
      assert IsExtensionAt(fileName, k);
      forall j | stem + 1 <= j < |name|
        ensures name[j] != '.' && !IsDirectorySeparator(name[j])
      {
        assert name[j] == fileName[k + (j - stem)];
      }
      assert name[stem] == '.';
      assert IsExtensionAt(name, stem);
      assert name[stem..] == ext;
    } else {
      if Extension(name) != "" {
        assert false;
      }
    }
  }
}
