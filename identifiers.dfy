/** Identifier resolution of the upload handler: the record (`registro`)
    and slot (`ponto`) numbers come from the request fields or, for the
    fields left out, from a client filename of the form `<registro>-<ponto>.<ext>`;
    the record then selects the storage directory and the name prefix. */
module Identifiers {
  import opened Wrappers
  import opened Errors
  import Text
  import Decimal

  /** `os.path.basename`: the part after the last `/`. */
  function Basename(p: string): (r: string)
    ensures |r| <= |p| && r == p[|p| - |r|..]
    ensures forall i :: 0 <= i < |r| ==> r[i] != '/'
    ensures |r| < |p| ==> p[|p| - |r| - 1] == '/'
    decreases |p|
  {
    if |p| == 0 || p[|p| - 1] == '/' then "" else Basename(p[..|p| - 1]) + [p[|p| - 1]]
  }

  /** A name without `/` is its own basename. */
  lemma {:induction false} BasenamePlain(name: string)
    requires forall i :: 0 <= i < |name| ==> name[i] != '/'
    ensures Basename(name) == name
    decreases |name|
  {
    if |name| > 0 {
      BasenamePlain(name[..|name| - 1]);
      assert name == name[..|name| - 1] + [name[|name| - 1]];
    }
  }

  /** Directory components are stripped: the basename of `dir/name` is
      `name` when `name` holds no `/`. */
  lemma {:induction false} BasenameAfterSlash(dir: string, name: string)
    requires forall i :: 0 <= i < |name| ==> name[i] != '/'
    ensures Basename(dir + "/" + name) == name
    decreases |name|
  {
    var p := dir + "/" + name;
    if |name| > 0 {
      assert p[..|p| - 1] == dir + "/" + name[..|name| - 1];
      BasenameAfterSlash(dir, name[..|name| - 1]);
      assert name == name[..|name| - 1] + [name[|name| - 1]];
    }
  }

  /** The name the handler inspects: the client filename, or `upload.<ext>`
      when it is empty, reduced to its basename and lower-cased. */
  function ClientName(filename: string, ext: string): (name: string)
    ensures forall i :: 0 <= i < |name| ==> name[i] != '/' && !('A' <= name[i] <= 'Z')
  {
    Text.Lower(Basename(if filename == "" then "upload." + ext else filename))
  }

  /** The extension alternatives of `FILENAME_RE`. */
  const NameExtensions: set<string> := {"jpg", "jpeg", "png", "webp"}

  datatype FilenameMatch = FilenameMatch(registro: string, ponto: string, ext: string)

  /** `FILENAME_RE.match` on a lower-cased name:
      digits, `-`, digits, `.`, one of the extensions, and nothing else.
      Digits contain neither `-` nor `.`, so the groups end at the first `-`
      and at the first `.` after it. */
  function MatchFilename(name: string): (r: Option<FilenameMatch>)
    ensures r.Some? ==> name == r.value.registro + "-" + r.value.ponto + "." + r.value.ext
    ensures r.Some? ==> |r.value.registro| >= 1 && Decimal.AllDigits(r.value.registro)
    ensures r.Some? ==> |r.value.ponto| >= 1 && Decimal.AllDigits(r.value.ponto)
    ensures r.Some? ==> r.value.ext in NameExtensions
  {
    var i := Text.FirstIndexOf(name, '-');
    if i == |name| then None
    else
      var reg, after := name[..i], name[i + 1..];
      var j := Text.FirstIndexOf(after, '.');
      if j == |after| then None
      else
        var pt, ext := after[..j], after[j + 1..];
        if |reg| >= 1 && Decimal.AllDigits(reg) && |pt| >= 1 && Decimal.AllDigits(pt) && ext in NameExtensions then
          Rejoin(name, i, j);
          Some(FilenameMatch(reg, pt, ext))
        else None
  }

  /** Cutting a name at a `-` and at a later `.` and joining the pieces
      back gives the name. */
  lemma Rejoin(name: string, i: nat, j: nat)
    requires i < |name| && j < |name| - i - 1
    requires name[i] == '-' && name[i + 1 + j] == '.'
    ensures name == name[..i] + "-" + name[i + 1..][..j] + "." + name[i + 1..][j + 1..]
  {
    var after := name[i + 1..];
    assert after == after[..j] + "." + after[j + 1..];
    assert name == name[..i] + "-" + after;
  }

  /** Every name of the pattern's shape matches, with its own groups. */
  lemma MatchFilenameComplete(reg: string, pt: string, ext: string)
    requires |reg| >= 1 && Decimal.AllDigits(reg)
    requires |pt| >= 1 && Decimal.AllDigits(pt)
    requires ext in NameExtensions
    ensures MatchFilename(reg + "-" + pt + "." + ext) == Some(FilenameMatch(reg, pt, ext))
  {
    var after := pt + "." + ext;
    var name := reg + "-" + pt + "." + ext;
    Dash(reg, pt, ext);
    Text.FirstIndexOfSplit(reg, '-', after);
    Text.FirstIndexOfSplit(pt, '.', ext);
  }

  /** How the pattern's name splits around its `-`. */
  lemma Dash(reg: string, pt: string, ext: string)
    ensures reg + "-" + pt + "." + ext == reg + ['-'] + (pt + "." + ext)
    ensures pt + "." + ext == pt + ['.'] + ext
  {
  }

  /** A name without `-` never matches. */
  lemma NoDashNoMatch(name: string)
    requires forall i :: 0 <= i < |name| ==> name[i] != '-'
    ensures MatchFilename(name) == None
  {
  }

  /** The record and slot numbers after the filename has been consulted. */
  datatype Ids = Ids(registro: Option<int>, ponto: Option<int>)

  /** Lines 71-81 of the handler: values parsed from the filename fill only
      the fields the request left out. */
  function ResolveIds(filename: string, registro: Option<int>, ponto: Option<int>, ext: string): (ids: Ids)
    ensures registro.Some? ==> ids.registro == registro
    ensures ponto.Some? ==> ids.ponto == ponto
    ensures MatchFilename(ClientName(filename, ext)).None? ==> ids == Ids(registro, ponto)
    ensures registro.None? && ids.registro.Some? ==> ids.registro.value >= 0
    ensures ponto.None? && ids.ponto.Some? ==> ids.ponto.value >= 0
  {
    match MatchFilename(ClientName(filename, ext))
    case None => Ids(registro, ponto)
    case Some(m) =>
      Ids(if registro.Some? then registro else Some(Decimal.ParseDigits(m.registro)),
          if ponto.Some? then ponto else Some(Decimal.ParseDigits(m.ponto)))
  }

  /** The substitute name `upload.<ext>` never matches, so a request with an
      empty filename keeps its own fields. */
  lemma EmptyFilenameKeepsFields(registro: Option<int>, ponto: Option<int>, ext: string)
    requires forall i :: 0 <= i < |ext| ==> ext[i] != '-'
    ensures ResolveIds("", registro, ponto, ext) == Ids(registro, ponto)
  {
    var full := "upload." + ext;
    forall j | 0 <= j < |full| ensures full[j] != '-' {
      if j >= 7 { assert full[j] == ext[j - 7]; }
    }
    NoDashClientName(full);
    assert ClientName("", ext) == Text.Lower(Basename(full));
    NoDashNoMatch(ClientName("", ext));
  }

  /** Taking the basename and lower-casing add no `-`. */
  lemma NoDashClientName(p: string)
    requires forall i :: 0 <= i < |p| ==> p[i] != '-'
    ensures var name := Text.Lower(Basename(p));
      forall i :: 0 <= i < |name| ==> name[i] != '-'
  {
    var base := Basename(p);
    var name := Text.Lower(base);
    forall i | 0 <= i < |name| ensures name[i] != '-' {
      assert base[i] == p[|p| - |base| + i];
      assert name[i] == Text.LowerChar(base[i]);
    }
  }

  /** A filename `<r>-<p>.<e>` under any directory, whose extension `e` is
      one of the pattern's in any letter case, supplies `int(r)` and
      `int(p)` for the fields the request left out. */
  lemma ResolveFromFilename(dir: string, reg: string, pt: string, e: string, registro: Option<int>, ponto: Option<int>, mimeExt: string)
    requires |reg| >= 1 && Decimal.AllDigits(reg)
    requires |pt| >= 1 && Decimal.AllDigits(pt)
    requires Text.Lower(e) in NameExtensions
    ensures ResolveIds(dir + "/" + reg + "-" + pt + "." + e, registro, ponto, mimeExt) ==
      Ids(if registro.Some? then registro else Some(Decimal.ParseDigits(reg)),
          if ponto.Some? then ponto else Some(Decimal.ParseDigits(pt)))
  {
    var name := reg + "-" + pt + "." + e;
    assert dir + "/" + reg + "-" + pt + "." + e == dir + "/" + name;
    PatternNameHasNoSlash(reg, pt, e);
    BasenameAfterSlash(dir, name);
    LowerPatternName(reg, pt, e);
    MatchFilenameComplete(reg, pt, Text.Lower(e));
  }

  /** A name of the pattern's shape, in any letter case, holds no `/`. */
  lemma PatternNameHasNoSlash(reg: string, pt: string, e: string)
    requires Decimal.AllDigits(reg) && Decimal.AllDigits(pt) && Text.Lower(e) in NameExtensions
    ensures forall i :: 0 <= i < |reg + "-" + pt + "." + e| ==> (reg + "-" + pt + "." + e)[i] != '/'
  {
    var name := reg + "-" + pt + "." + e;
    var low := Text.Lower(e);
    assert forall i :: 0 <= i < |low| ==> 'a' <= low[i] <= 'z';
    forall i | 0 <= i < |name| ensures name[i] != '/' {
      if i < |reg| { assert name[i] == reg[i]; }
      else if i == |reg| { assert name[i] == '-'; }
      else if i < |reg| + 1 + |pt| { assert name[i] == pt[i - |reg| - 1]; }
      else if i == |reg| + 1 + |pt| { assert name[i] == '.'; }
      else {
        var k := i - |reg| - 2 - |pt|;
        assert name[i] == e[k] && low[k] == Text.LowerChar(e[k]);
      }
    }
  }

  /** Lower-casing a name of the pattern's shape only lower-cases its
      extension. */
  lemma LowerPatternName(reg: string, pt: string, e: string)
    requires Decimal.AllDigits(reg) && Decimal.AllDigits(pt)
    ensures Text.Lower(reg + "-" + pt + "." + e) == reg + "-" + pt + "." + Text.Lower(e)
  {
    var name := reg + "-" + pt + "." + e;
    var low := reg + "-" + pt + "." + Text.Lower(e);
    forall i | 0 <= i < |name| ensures Text.Lower(name)[i] == low[i] {
      if i < |reg| { assert name[i] == reg[i] == low[i]; }
      else if i == |reg| { assert name[i] == '-' == low[i]; }
      else if i < |reg| + 1 + |pt| { assert name[i] == pt[i - |reg| - 1] == low[i]; }
      else if i == |reg| + 1 + |pt| { assert name[i] == '.' == low[i]; }
      else {
        var k := i - |reg| - 2 - |pt|;
        assert name[i] == e[k] && low[i] == Text.Lower(e)[k];
      }
    }
  }

  /** The same for a bare filename `<r>-<p>.<e>` with no directory part. */
  lemma ResolveFromBareFilename(reg: string, pt: string, e: string, registro: Option<int>, ponto: Option<int>, mimeExt: string)
    requires |reg| >= 1 && Decimal.AllDigits(reg)
    requires |pt| >= 1 && Decimal.AllDigits(pt)
    requires Text.Lower(e) in NameExtensions
    ensures ResolveIds(reg + "-" + pt + "." + e, registro, ponto, mimeExt) ==
      Ids(if registro.Some? then registro else Some(Decimal.ParseDigits(reg)),
          if ponto.Some? then ponto else Some(Decimal.ParseDigits(pt)))
  {
    var name := reg + "-" + pt + "." + e;
    PatternNameHasNoSlash(reg, pt, e);
    BasenamePlain(name);
    LowerPatternName(reg, pt, e);
    MatchFilenameComplete(reg, pt, Text.Lower(e));
  }

  /** Lower-casing leaves a name without upper-case letters unchanged. */
  lemma LowerUnchanged(s: string)
    requires forall i :: 0 <= i < |s| ==> !('A' <= s[i] <= 'Z')
    ensures Text.Lower(s) == s
  {
  }

  /** Where an upload goes: the directory under the image root and the
      prefix of the file name. */
  datatype Target = Target(dirKey: string, prefix: string)

  /** The anonymous bucket. */
  const MiscDir: string := "misc"

  /** `uuid.uuid4().hex[:8]`: eight lower-case hexadecimal digits. */
  predicate IsHexToken(token: string) {
    |token| == 8 && forall i :: 0 <= i < |token| ==> ('0' <= token[i] <= '9' || 'a' <= token[i] <= 'f')
  }

  /** Lines 83-92 of the handler: no record means the `misc` directory and
      the random token as prefix; a record must be non-negative and gives
      its decimal form as both directory and prefix. */
  function StorageTarget(registro: Option<int>, token: string): (r: Result<Target, UploadError>)
    ensures registro.None? ==> r == Success(Target(MiscDir, token))
    ensures registro.Some? && registro.value < 0 ==> r == Failure(InvalidRegistro)
    ensures registro.Some? && registro.value >= 0 ==>
      && r.Success?
      && r.value.prefix == r.value.dirKey == Decimal.NatToString(registro.value)
      && Decimal.IsCanonical(r.value.dirKey)
      && Decimal.ParseDigits(r.value.dirKey) == registro.value
      && r.value.dirKey != MiscDir
  {
    match registro
    case None => Success(Target(MiscDir, token))
    case Some(n) =>
      if n < 0 then Failure(InvalidRegistro)
      else
        var key := Decimal.NatToString(n);
        Decimal.ParseNatToString(n);
        assert key[0] != 'm';
        Success(Target(key, key))
  }

  /** Line 94 of the handler: a slot, when present, must be non-negative. */
  predicate PontoValid(ponto: Option<int>) {
    ponto.None? || ponto.value >= 0
  }
}
