/** The site-folder name built by the upload handler from the caller's name and a fresh id. */
module SiteNaming {
  import opened JsText

  /**
   * The code units that the pattern `[^a-z0-9-_]` with flags `gi` leaves alone.
   * Without the `u` flag, case-insensitive matching only folds ASCII letters onto
   * ASCII letters, so these are exactly the ASCII letters, digits, `-` and `_`.
   */
  predicate IsNameUnit(c: CodeUnit)
  {
    IsAsciiUpper(c) || IsAsciiLower(c) || IsAsciiDigit(c) || c == Hyphen || c == Underscore
  }

  /** `webName.replace(/[^a-z0-9-_]/gi, '_')`: one code unit at a time. */
  function ReplaceUnsafe(s: JsString): JsString
  {
    if s == [] then [] else [if IsNameUnit(s[0]) then s[0] else Underscore] + ReplaceUnsafe(s[1..])
  }

  /** `toLowerCase` on one ASCII code unit. */
  function LowerUnit(c: CodeUnit): CodeUnit
  {
    if IsAsciiUpper(c) then c + 0x20 else c
  }

  /**
   * `toLowerCase`, on the ASCII range. It is only applied to the output of
   * `ReplaceUnsafe`, which is all ASCII (see `ReplacedIsAscii`), so the
   * non-ASCII mappings of the full Unicode lowercasing never arise.
   */
  function ToLowerAscii(s: JsString): JsString
  {
    if s == [] then [] else [LowerUnit(s[0])] + ToLowerAscii(s[1..])
  }

  /** The `safeName` of the upload handler. */
  function SafeName(webName: JsString): JsString
  {
    ToLowerAscii(ReplaceUnsafe(webName))
  }

  /** The units a safe name may contain: `a-z`, `0-9`, `-` and `_`. */
  predicate IsSafeUnit(c: CodeUnit)
  {
    IsAsciiLower(c) || IsAsciiDigit(c) || c == Hyphen || c == Underscore
  }

  predicate IsSafeName(s: JsString)
  {
    forall i | 0 <= i < |s| :: IsSafeUnit(s[i])
  }

  /** The folder of a site under `sites/`: `${safeName}-${id}`. */
  function FolderName(safeName: JsString, id: JsString): JsString
  {
    safeName + [Hyphen] + id
  }

  predicate IsLowerHexDigit(c: CodeUnit)
  {
    IsAsciiDigit(c) || 0x61 <= c <= 0x66
  }

  /**
   * The textual form of a version 4 UUID as the `uuid` package's `v4` returns it
   * (RFC 4122, section 4.4 for the version and variant bits, section 3 for the
   * layout): 36 lower-case hexadecimal digits and hyphens in the 8-4-4-4-12
   * pattern, the version digit `4` and a variant digit among `8`, `9`, `a`, `b`.
   */
  predicate IsUuidV4(id: JsString)
  {
    |id| == 36 &&
    (forall i | 0 <= i < 36 :: if i in {8, 13, 18, 23} then id[i] == Hyphen else IsLowerHexDigit(id[i])) &&
    id[14] == 0x34 &&
    id[19] in {0x38, 0x39, 0x61, 0x62}
  }

  /** Pointwise meaning of `SafeName`: each unit is kept (lower-cased) or becomes `_`. */
  lemma {:induction false} SafeNameAt(w: JsString, i: nat)
    requires i < |w|
    ensures |SafeName(w)| == |w|
    ensures SafeName(w)[i] == if IsNameUnit(w[i]) then LowerUnit(w[i]) else Underscore
  {
    ReplaceUnsafeAt(w, i);
    if i > 0 {
      ReplaceUnsafeLength(w);
    }
    LowerAt(ReplaceUnsafe(w), i);
  }

  lemma {:induction false} ReplaceUnsafeLength(w: JsString)
    ensures |ReplaceUnsafe(w)| == |w|
  {
    if w != [] {
      ReplaceUnsafeLength(w[1..]);
    }
  }

  lemma {:induction false} ReplaceUnsafeAt(w: JsString, i: nat)
    requires i < |w|
    ensures |ReplaceUnsafe(w)| == |w|
    ensures ReplaceUnsafe(w)[i] == if IsNameUnit(w[i]) then w[i] else Underscore
  {
    ReplaceUnsafeLength(w);
    if i > 0 {
      ReplaceUnsafeAt(w[1..], i - 1);
    }
  }

  lemma {:induction false} LowerAt(s: JsString, i: nat)
    requires i < |s|
    ensures |ToLowerAscii(s)| == |s|
    ensures ToLowerAscii(s)[i] == LowerUnit(s[i])
  {
    if i > 0 {
      LowerAt(s[1..], i - 1);
    } else if |s| > 1 {
      LowerAt(s[1..], 0);
    }
  }

  /**
   * The replacement leaves only ASCII, so lower-casing it with ASCII rules is the
   * same as JavaScript's `toLowerCase`.
   */
  lemma ReplacedIsAscii(w: JsString)
    ensures forall i | 0 <= i < |ReplaceUnsafe(w)| :: IsAscii(ReplaceUnsafe(w)[i])
  {
    ReplaceUnsafeLength(w);
    forall i | 0 <= i < |w|
      ensures IsAscii(ReplaceUnsafe(w)[i])
    {
      ReplaceUnsafeAt(w, i);
    }
  }

  /** The safe name has the length of `webName` and only `a-z`, `0-9`, `-`, `_`. */
  lemma SafeNameIsSafe(w: JsString)
    ensures |SafeName(w)| == |w|
    ensures IsSafeName(SafeName(w))
  {
    ReplaceUnsafeLength(w);
    LowerLength(ReplaceUnsafe(w));
    forall i | 0 <= i < |w|
      ensures IsSafeUnit(SafeName(w)[i])
    {
      SafeNameAt(w, i);
    }
  }

  lemma {:induction false} LowerLength(s: JsString)
    ensures |ToLowerAscii(s)| == |s|
  {
    if s != [] {
      LowerLength(s[1..]);
    }
  }

  /** A name already made only of `a-z`, `0-9`, `-`, `_` is returned as it is, and only such a name. */
  lemma SafeNameFixedIff(s: JsString)
    ensures SafeName(s) == s <==> IsSafeName(s)
  {
    SafeNameIsSafe(s);
    if IsSafeName(s) {
      forall i | 0 <= i < |s|
        ensures SafeName(s)[i] == s[i]
      {
        SafeNameAt(s, i);
      }
    }
  }

  /** Sanitising a sanitised name changes nothing. */
  lemma SafeNameIdempotent(w: JsString)
    ensures SafeName(SafeName(w)) == SafeName(w)
  {
    SafeNameIsSafe(w);
    SafeNameFixedIff(SafeName(w));
  }

  /** The id is the suffix of the folder name, after the safe name and a hyphen. */
  lemma FolderNameParts(safeName: JsString, id: JsString)
    ensures |FolderName(safeName, id)| == |safeName| + 1 + |id|
    ensures FolderName(safeName, id)[|safeName| + 1..] == id
    ensures FolderName(safeName, id)[..|safeName|] == safeName
    ensures FolderName(safeName, id)[|safeName|] == Hyphen
  {
  }

  /** Ids of equal length that differ give different folders, whatever the two names. */
  lemma FolderNamesDistinct(w1: JsString, w2: JsString, id1: JsString, id2: JsString)
    requires |id1| == |id2|
    requires id1 != id2
    ensures FolderName(SafeName(w1), id1) != FolderName(SafeName(w2), id2)
  {
    var f1, f2 := FolderName(SafeName(w1), id1), FolderName(SafeName(w2), id2);
    assert f1[|f1| - |id1|..] == id1;
    assert f2[|f2| - |id2|..] == id2;
  }

  /** Two version 4 UUIDs that differ give different folders. */
  lemma UuidFoldersDistinct(w1: JsString, w2: JsString, id1: JsString, id2: JsString)
    requires IsUuidV4(id1) && IsUuidV4(id2)
    requires id1 != id2
    ensures FolderName(SafeName(w1), id1) != FolderName(SafeName(w2), id2)
  {
    FolderNamesDistinct(w1, w2, id1, id2);
  }
}
