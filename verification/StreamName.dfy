/**
 Names of backup stream files: streamFilename and validateJailName of lib/backup_pure.cpp,
 parseStreamFilename of lib/backup_prune_pure.cpp.
 */
module StreamName {
  import opened Text
  import opened Calendar

  datatype StreamFile = StreamFile(
    filename: string,
    jail: string,
    suffix: string,
    base: string, // incFromSuffix; empty for a full stream
    epoch: nat)   // 0 if the timestamp did not parse

  const MAX_JAIL_NAME := 128 // NameLimits::kJailName
  const EXT := ".zstream"
  const INC_TAG := ".inc-from-"
  const BACKUP_TAG := "-backup-"

  predicate AllNameChars(s: string) { forall i :: 0 <= i < |s| ==> IsNameChar(s[i]) }

  predicate IsJailName(s: string) {
    0 < |s| <= MAX_JAIL_NAME && s != "." && s != ".." && AllNameChars(s)
  }

  /** validateJailName, with the error text reduced to a flag. */
  method ValidateJailName(name: string) returns (ok: bool)
    ensures ok <==> IsJailName(name)
    ensures ok <==> 1 <= |name| <= 128 && name != "." && name != ".." && AllNameCodes(name)
  {
    if name == [] || |name| > MAX_JAIL_NAME || name == "." || name == ".." {
      return false;
    }
    for i := 0 to |name|
      invariant AllNameChars(name[..i])
    {
      if !IsNameChar(name[i]) {
        return false;
      }
      assert name[..i + 1] == name[..i] + [name[i]];
    }
    assert name[..|name|] == name;
    return true;
  }

  /** How a full and an incremental stream are spelled. */
  lemma FilenameText(jail: string, suffix: string, base: string)
    ensures StreamFilename(jail, suffix, base) ==
      jail + "-" + suffix + (if base == "" then "" else ".inc-from-" + base) + ".zstream"
  {
    if base != "" {
      Grouped(jail + "-" + suffix, ".inc-from-", base, ".zstream");
    }
  }

  lemma Grouped(a: string, b: string, c: string, d: string)
    ensures a + b + c + d == a + (b + c) + d
  {
  }

  /** streamFilename. */
  function StreamFilename(jail: string, suffix: string, base: string): string {
    if base == "" then jail + "-" + suffix + EXT
    else jail + "-" + suffix + INC_TAG + base + EXT
  }

  /** parseStreamFilename; None is any of its refusals. */
  function ParseStreamFilename(name: string): Option<StreamFile> {
    if |name| <= |EXT| || name[|name| - |EXT|..] != EXT then None
    else ParseUntagged(name, name[..|name| - |EXT|])
  }

  function ParseUntagged(name: string, whole: string): Option<StreamFile> {
    var inc := Find(whole, INC_TAG, 0);
    if inc == NPOS then ParseParts(name, whole, "")
    else ParseParts(name, whole[..inc], whole[inc + |INC_TAG|..])
  }

  function ParseParts(name: string, stem: string, base: string): Option<StreamFile> {
    var bp := FindLast(stem, BACKUP_TAG, |stem|);
    if bp == NPOS || bp == 0 then None
    else
      var jail := stem[..bp];
      var suffix := stem[bp + 1..];
      if |jail| > MAX_JAIL_NAME || !AllNameChars(jail) then None
      else if ParseSuffixEpoch(suffix) == 0 then None
      else if base != "" && ParseSuffixEpoch(base) == 0 then None
      else Some(StreamFile(name, jail, suffix, base, ParseSuffixEpoch(suffix)))
  }

  // ---------- What a suffix can contain ----------

  lemma SuffixChars(s: string)
    requires HasSuffixShape(s)
    ensures forall k :: 0 <= k < 27 ==> s[k] != '.'
    ensures forall k :: 1 <= k < 27 ==> s[k] != 'b'
    ensures s[0] == 'b' && s[20] == ':' && s[26] == 'Z'
  {
    forall k | 0 <= k < 27
      ensures s[k] != '.' && (k > 0 ==> s[k] != 'b')
    {
      if k < 7 { assert s[k] == s[..7][k]; }
      else if 7 <= k < 11 { assert s[k] == s[7..11][k - 7]; }
      else if 12 <= k < 14 { assert s[k] == s[12..14][k - 12]; }
      else if 15 <= k < 17 { assert s[k] == s[15..17][k - 15]; }
      else if 18 <= k < 20 { assert s[k] == s[18..20][k - 18]; }
      else if 21 <= k < 23 { assert s[k] == s[21..23][k - 21]; }
      else if 24 <= k < 26 { assert s[k] == s[24..26][k - 24]; }
    }
    assert s[0] == s[..7][0];
  }

  /** A tag that starts before the end of the suffix lies in the jail name and its dash. */
  lemma TagBeforeSuffixEnd(jail: string, s: string, t: string, i: int)
    requires HasSuffixShape(s) && i < |jail| + 1 + |s|
    ensures At(jail + "-" + s + t, INC_TAG, i) <==> At(jail + "-", INC_TAG, i)
  {
    var h := jail + "-";
    var w := h + s + t;
    SuffixChars(s);
    AtChars(w, INC_TAG, i);
    AtChars(h, INC_TAG, i);
    if |h| <= i {
      assert w[i] == s[i - |h|];
      assert INC_TAG[0] == '.';
    } else if 0 <= i && |h| < i + |INC_TAG| {
      var k := |h| - i;
      assert w[i + k] == s[0] && INC_TAG[k] != 'b';
    }
  }

  /** The last "-backup-" of jail-suffix is the one between them. */
  lemma LastBackupTag(jail: string, s: string)
    requires HasSuffixShape(s)
    ensures var stem := jail + "-" + s; FindLast(stem, BACKUP_TAG, |stem|) == |jail|
  {
    var stem := jail + "-" + s;
    SuffixChars(s);
    forall i | |jail| < i <= |stem|
      ensures !At(stem, BACKUP_TAG, i)
    {
      AtChars(stem, BACKUP_TAG, i);
      assert BACKUP_TAG[1] == 'b';
      assert i + 1 < |stem| ==> stem[i + 1] == s[i - |jail|];
    }
    assert s[..7] == "backup-";
    assert stem[|jail|..|jail| + 8] == "-" + s[..7];
    assert At(stem, BACKUP_TAG, |jail|);
  }

  /** Whatever name is accepted, its jail is named by up to 128 name characters and its moments are accepted ones. */
  lemma ParsedParts(name: string)
    requires ParseStreamFilename(name).Some?
    ensures var f := ParseStreamFilename(name).value;
      && f.filename == name && 1 <= |f.jail| <= 128 && AllNameCodes(f.jail)
      && f.epoch == ParseSuffixEpoch(f.suffix) > 0 && (f.base != "" ==> ParseSuffixEpoch(f.base) > 0)
  {
  }

  // ---------- Main results ----------

  /**
   What was printed parses back to the same jail, suffix and base, or not at all: it is refused
   exactly when the jail name with its dash holds the incremental tag.
   */
  lemma NameRoundTrip(jail: string, suffix: string, base: string)
    requires IsJailName(jail) && ParseSuffixEpoch(suffix) > 0
    requires base == "" || ParseSuffixEpoch(base) > 0
    ensures var name := StreamFilename(jail, suffix, base);
      ParseStreamFilename(name) ==
      if Contains(jail + "-", INC_TAG) then None
      else Some(StreamFile(name, jail, suffix, base, ParseSuffixEpoch(suffix)))
  {
    var name := StreamFilename(jail, suffix, base);
    var t := if base == "" then "" else INC_TAG + base;
    var stem := jail + "-" + suffix;
    assert name == stem + t + EXT;
    ExtStripped(stem + t);
    if Contains(jail + "-", INC_TAG) {
      TaggedJailRefused(name, jail, suffix, t);
    } else {
      UntaggedJail(name, jail, suffix, base);
      PartsRoundTrip(name, jail, suffix, base);
    }
  }

  lemma ExtStripped(whole: string)
    requires whole != ""
    ensures ParseStreamFilename(whole + EXT) == ParseUntagged(whole + EXT, whole)
  {
    var name := whole + EXT;
    assert name[..|name| - |EXT|] == whole && name[|name| - |EXT|..] == EXT;
  }

  lemma PartsRoundTrip(name: string, jail: string, suffix: string, base: string)
    requires IsJailName(jail) && ParseSuffixEpoch(suffix) > 0
    requires base == "" || ParseSuffixEpoch(base) > 0
    ensures ParseParts(name, jail + "-" + suffix, base)
      == Some(StreamFile(name, jail, suffix, base, ParseSuffixEpoch(suffix)))
  {
    var stem := jail + "-" + suffix;
    LastBackupTag(jail, suffix);
    assert stem[..|jail|] == jail && stem[|jail| + 1..] == suffix;
  }

  lemma UntaggedJail(name: string, jail: string, suffix: string, base: string)
    requires HasSuffixShape(suffix) && !Contains(jail + "-", INC_TAG)
    ensures var t := if base == "" then "" else INC_TAG + base;
      ParseUntagged(name, jail + "-" + suffix + t) == ParseParts(name, jail + "-" + suffix, base)
  {
    var stem := jail + "-" + suffix;
    var cut := |stem|;
    var t := if base == "" then "" else INC_TAG + base;
    forall i | i < cut
      ensures !At(stem + t, INC_TAG, i)
    {
      TagBeforeSuffixEnd(jail, suffix, t, i);
    }
    if base == "" {
      assert stem + t == stem;
      assert forall i :: cut <= i ==> !At(stem, INC_TAG, i);
    } else {
      var whole := stem + t;
      assert whole[cut..cut + |INC_TAG|] == INC_TAG;
      FindIs(whole, INC_TAG, 0, cut);
      assert whole[..cut] == stem && whole[cut + |INC_TAG|..] == base;
    }
  }

  /** Cut at a tag inside the jail name, what is left has no ':' and so holds no suffix. */
  lemma TaggedJailRefused(name: string, jail: string, suffix: string, t: string)
    requires AllNameChars(jail) && HasSuffixShape(suffix) && Contains(jail + "-", INC_TAG)
    ensures ParseUntagged(name, jail + "-" + suffix + t) == None
  {
    var whole := jail + "-" + suffix + t;
    var k :| At(jail + "-", INC_TAG, k);
    TagBeforeSuffixEnd(jail, suffix, t, k);
    var inc := Find(whole, INC_TAG, 0);
    assert inc != NPOS && inc <= k;
    var stem := whole[..inc];
    assert forall i :: 0 <= i < |stem| ==> stem[i] == jail[i] && stem[i] != ':';
    var bp := FindLast(stem, BACKUP_TAG, |stem|);
    if bp != NPOS && HasSuffixShape(stem[bp + 1..]) {
      SuffixChars(stem[bp + 1..]);
    }
  }

  /** A parsed name is printed back as it was, unless it ends in an empty incremental tag. */
  lemma ReprintedName(name: string)
    requires ParseStreamFilename(name).Some?
    ensures var f := ParseStreamFilename(name).value;
      StreamFilename(f.jail, f.suffix, f.base) == name <==> !EndsIn(name, INC_TAG + EXT)
  {
    var whole := name[..|name| - |EXT|];
    assert name == whole + EXT;
    var inc := Find(whole, INC_TAG, 0);
    var stem := if inc == NPOS then whole else whole[..inc];
    var base := if inc == NPOS then "" else whole[inc + |INC_TAG|..];
    PartsJoin(name, stem, base);
    ReprintedParts(whole, inc, stem, base, ParseParts(name, stem, base).value);
  }

  lemma ReprintedParts(whole: string, inc: int, stem: string, base: string, f: StreamFile)
    requires inc == Find(whole, INC_TAG, 0)
    requires if inc == NPOS then stem == whole && base == ""
             else stem == whole[..inc] && base == whole[inc + |INC_TAG|..]
    requires stem == f.jail + "-" + f.suffix && f.base == base && (base != "" ==> HasSuffixShape(base))
    ensures StreamFilename(f.jail, f.suffix, f.base) == whole + EXT <==> !EndsIn(whole + EXT, INC_TAG + EXT)
  {
    if inc == NPOS {
      EndsInTag(whole);
    } else {
      ReprintedTagged(stem, base, f);
      assert whole == stem + INC_TAG + base;
    }
  }

  lemma ReprintedTagged(stem: string, base: string, f: StreamFile)
    requires stem == f.jail + "-" + f.suffix && f.base == base && (base != "" ==> HasSuffixShape(base))
    ensures var whole := stem + INC_TAG + base;
      && (StreamFilename(f.jail, f.suffix, f.base) == whole + EXT <==> base != "")
      && (EndsIn(whole + EXT, INC_TAG + EXT) <==> base == "")
  {
    var whole := stem + INC_TAG + base;
    if base == "" {
      assert |StreamFilename(f.jail, f.suffix, f.base)| < |whole + EXT|;
      assert whole + EXT == stem + (INC_TAG + EXT);
    } else {
      SuffixChars(base);
      EndsInTag(whole);
      assert whole[|whole| - 1] == base[26];
    }
  }

  predicate EndsIn(s: string, t: string) { |t| <= |s| && s[|s| - |t|..] == t }

  lemma EndsInTag(whole: string)
    ensures EndsIn(whole + EXT, INC_TAG + EXT) ==> At(whole, INC_TAG, |whole| - 10) && whole[|whole| - 1] == '-'
  {
    var name := whole + EXT;
    if EndsIn(name, INC_TAG + EXT) {
      var e := name[|name| - 18..];
      assert whole[|whole| - 10..] == e[..10] == INC_TAG;
      assert whole[|whole| - 1] == e[9];
    }
  }

  lemma PartsJoin(name: string, stem: string, base: string)
    requires ParseParts(name, stem, base).Some?
    ensures var f := ParseParts(name, stem, base).value;
      stem == f.jail + "-" + f.suffix && f.base == base && (base != "" ==> HasSuffixShape(base))
  {
    var bp := FindLast(stem, BACKUP_TAG, |stem|);
    AtChars(stem, BACKUP_TAG, bp);
    assert stem[bp + 0] == BACKUP_TAG[0];
  }
}
