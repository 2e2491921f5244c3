/** The `/upload` handler: admission of the request, placement of the file
    under a name that does not exist yet, the write, and the response. */
module Upload {
  import opened Wrappers
  import opened Base64
  import opened Errors
  import opened DataUrl
  import opened Identifiers
  import opened Storage
  import Decimal
  import Text

  /** The JSON body `{filename, data_url, registro?, ponto?}`. */
  datatype UploadIn = UploadIn(filename: string, dataUrl: string, registro: Option<int>, ponto: Option<int>)

  /** The JSON response `{link, mime, size, registro, ponto, path}`. */
  datatype UploadOut = UploadOut(link: string, mime: string, size: nat, registro: Option<int>, ponto: Option<int>, path: string)

  /** A request that passed every check, with everything placement needs. */
  datatype Admission = Admission(mime: string, binary: seq<byte>, ext: string, ids: Ids, target: Target)

  /** A rejected request: the error, and the directory `os.makedirs` created
      before the rejection, if any. */
  datatype Rejection = Rejection(error: UploadError, madeDir: Option<string>)

  /** What placement needs of an admission: an allowed MIME type, its
      extension, and a slot that is absent or non-negative. */
  predicate Placeable(a: Admission) {
    a.mime in AllowedMimes && a.ext == AllowedMimes[a.mime] && PontoValid(a.ids.ponto)
  }

  /** Lines 71-95 of the handler, after `parse_data_url` returned `p`:
      derive the extension from the MIME type, resolve record and slot,
      choose the directory and prefix, and check the slot. The directory is
      created before the slot is checked, so a bad slot leaves it behind. */
  function Admit(p: Payload, req: UploadIn, token: string): (r: Result<Admission, Rejection>)
    requires p.mime in AllowedMimes
    ensures r.Success? ==> Placeable(r.value) && r.value.mime == p.mime && r.value.binary == p.binary
  {
    var ext := AllowedMimes[p.mime];
    var ids := ResolveIds(req.filename, req.registro, req.ponto, ext);
    match StorageTarget(ids.registro, token)
    case Failure(e) => Failure(Rejection(e, None))
    case Success(t) =>
      if !PontoValid(ids.ponto) then Failure(Rejection(InvalidPonto, Some(t.dirKey)))
      else Success(Admission(p.mime, p.binary, ext, ids, t))
  }

  /** The directory and prefix of an admitted request: the anonymous
      bucket and the token without a record, otherwise `str(registro)` for
      both, with a non-negative record. */
  lemma AdmitTarget(p: Payload, req: UploadIn, token: string)
    requires p.mime in AllowedMimes && Admit(p, req, token).Success?
    ensures var a := Admit(p, req, token).value;
      && (a.ids.registro.None? ==> a.target == Target(MiscDir, token))
      && (a.ids.registro.Some? ==>
            && a.ids.registro.value >= 0
            && a.target.dirKey == a.target.prefix == Decimal.NatToString(a.ids.registro.value))
  {
  }

  /** Fields sent in the request win over the filename. */
  lemma AdmitKeepsFields(p: Payload, req: UploadIn, token: string)
    requires p.mime in AllowedMimes && Admit(p, req, token).Success?
    ensures var a := Admit(p, req, token).value;
      && (req.registro.Some? ==> a.ids.registro == req.registro)
      && (req.ponto.Some? ==> a.ids.ponto == req.ponto)
  {
  }

  /** After a successful parse only the record and the slot can be
      rejected, both with status 400; only the slot check comes after
      `os.makedirs`, so only it leaves a directory behind. */
  lemma AdmitRejection(p: Payload, req: UploadIn, token: string)
    requires p.mime in AllowedMimes && Admit(p, req, token).Failure?
    ensures var rej := Admit(p, req, token).error;
      && (rej.error == InvalidRegistro || rej.error == InvalidPonto)
      && rej.error.Status() == 400
      && (rej.madeDir.Some? <==> rej.error == InvalidPonto)
  {
  }

  /** Lines 97-108 of the handler: the index of the stored name. A free
      requested slot is used as it is; a taken one, or no slot, leads to the
      sequential search. */
  function FinalIndex(names: set<string>, prefix: string, ext: string, ponto: Option<int>): (n: nat)
    requires PontoValid(ponto)
    ensures Candidate(prefix, n, ext) !in names
    ensures ponto.Some? && Candidate(prefix, ponto.value, ext) !in names ==> n == ponto.value
    ensures ponto.Some? && Candidate(prefix, ponto.value, ext) in names ==>
      n > ponto.value && forall k :: ponto.value < k < n ==> Candidate(prefix, k, ext) in names
    ensures ponto.None? ==> n >= 1 && forall k :: 1 <= k < n ==> Candidate(prefix, k, ext) in names
  {
    match ponto
    case None => FirstFree(names, prefix, ext, 1)
    case Some(p) =>
      if Candidate(prefix, p, ext) !in names then p else FirstFree(names, prefix, ext, p + 1)
  }

  /** `rel_url`: `/imagens/<registro|misc>/<final_name>`. */
  function RelativePath(dirKey: string, name: string): string {
    "/imagens/" + dirKey + "/" + name
  }

  /** The name an admitted upload is stored under, given the tree before
      the request. */
  function StoredName(tree: Tree, a: Admission): string
    requires PontoValid(a.ids.ponto)
  {
    var made := EnsureDir(tree, a.target.dirKey);
    Candidate(a.target.prefix, FinalIndex(made[a.target.dirKey].Keys, a.target.prefix, a.ext, a.ids.ponto), a.ext)
  }

  /** Lines 97-108 of the handler on the file store: the requested slot's
      name when no file has it, otherwise the name `next_sequential_name`
      reserves, searching from the slot plus one, or from 1 when no slot was
      given. */
  method PlaceName(fs: FileStore, dirKey: string, prefix: string, ext: string, ponto: Option<int>)
    returns (finalName: string)
    requires dirKey in fs.tree && PontoValid(ponto)
    modifies fs
    ensures finalName == Candidate(prefix, FinalIndex(old(fs.tree)[dirKey].Keys, prefix, ext, ponto), ext)
    ensures fs.tree ==
      if ponto.Some? && Candidate(prefix, ponto.value, ext) !in old(fs.tree)[dirKey] then old(fs.tree)
      else old(fs.tree)[dirKey := old(fs.tree)[dirKey][finalName := []]]
  {
    ghost var n: nat;
    if ponto.Some? {
      var tentative := Candidate(prefix, ponto.value, ext);
      if fs.Exists(dirKey, tentative) {
        finalName, n := NextSequentialName(fs, dirKey, prefix, ext, ponto.value + 1);
      } else {
        // A free requested slot is not reserved by an exclusive create:
        // the caller's write creates the file.
        finalName := tentative;
      }
    } else {
      finalName, n := NextSequentialName(fs, dirKey, prefix, ext, 1);
    }
  }

  /** Writing over the empty placeholder leaves the same tree as writing
      the file directly. */
  lemma OverwritePlaceholder(t: Tree, d: string, name: string, data: seq<byte>)
    requires d in t
    ensures var placed := t[d := t[d][name := []]];
      placed[d := placed[d][name := data]] == t[d := t[d][name := data]]
  {
    var placed := t[d := t[d][name := []]];
    assert placed[d][name := data] == t[d][name := data];
  }

  /** What one request does: its response and the tree afterwards. */
  datatype Effect = Effect(response: Result<UploadOut, UploadError>, tree: Tree)

  /** What the rest of the handler does with the outcome of admission: a
      rejection answers with its error and leaves at most the directory
      `os.makedirs` created; an admission writes the bytes under the stored
      name and answers with the link. */
  function Apply(tree: Tree, adm: Result<Admission, Rejection>, baseUrl: string): Effect
    requires adm.Success? ==> Placeable(adm.value)
  {
    match adm
    case Failure(rej) =>
      Effect(Failure(rej.error), if rej.madeDir.Some? then EnsureDir(tree, rej.madeDir.value) else tree)
    case Success(a) =>
      var made := EnsureDir(tree, a.target.dirKey);
      var name := StoredName(tree, a);
      var path := RelativePath(a.target.dirKey, name);
      Effect(Success(UploadOut(baseUrl + path, a.mime, |a.binary|, a.ids.registro, a.ids.ponto, path)),
             made[a.target.dirKey := made[a.target.dirKey][name := a.binary]])
  }

  /** The reference behaviour of the handler on a tree, used as the
      specification of `Upload`: a data URL that `parse_data_url` rejects
      ends the request before the file store is touched. */
  function UploadSpec(tree: Tree, req: UploadIn, token: string, baseUrl: string): Effect {
    match ParseDataUrl(req.dataUrl)
    case Failure(e) => Effect(Failure(e), tree)
    case Success(p) => Apply(tree, Admit(p, req, token), baseUrl)
  }

  /** The handler itself, step by step on the file store. `token` stands
      for `uuid.uuid4().hex[:8]` and `baseUrl` for `BASE_URL`. */
  method Upload(fs: FileStore, req: UploadIn, token: string, baseUrl: string)
    returns (res: Result<UploadOut, UploadError>)
    requires IsHexToken(token)
    modifies fs
    ensures res == UploadSpec(old(fs.tree), req, token, baseUrl).response
    ensures fs.tree == UploadSpec(old(fs.tree), req, token, baseUrl).tree
  {
    var parsed := ParseDataUrl(req.dataUrl);
    if parsed.Failure? {
      return Failure(parsed.error);
    }
    res := Store(fs, parsed.value, req, token, baseUrl);
  }

  /** The handler after `parse_data_url` returned `p`: identifier
      resolution, `os.makedirs`, the slot check, placement, the write and
      the response. */
  method Store(fs: FileStore, p: Payload, req: UploadIn, token: string, baseUrl: string)
    returns (res: Result<UploadOut, UploadError>)
    requires p.mime in AllowedMimes
    modifies fs
    ensures res == Apply(old(fs.tree), Admit(p, req, token), baseUrl).response
    ensures fs.tree == Apply(old(fs.tree), Admit(p, req, token), baseUrl).tree
  {
    var mime, binary := p.mime, p.binary;
    var ext := AllowedMimes[mime];
    var ids := ResolveIds(req.filename, req.registro, req.ponto, ext);
    var dirKey: string, prefix: string;
    if ids.registro.None? {
      dirKey := MiscDir;
      fs.MakeDirs(dirKey);
      prefix := token;
    } else {
      if ids.registro.value < 0 {
        return Failure(InvalidRegistro);
      }
      dirKey := Decimal.NatToString(ids.registro.value);
      fs.MakeDirs(dirKey);
      prefix := dirKey;
    }
    assert StorageTarget(ids.registro, token) == Success(Target(dirKey, prefix));
    if !PontoValid(ids.ponto) {
      return Failure(InvalidPonto);
    }
    ghost var a := Admission(mime, binary, ext, ids, Target(dirKey, prefix));
    assert Admit(p, req, token) == Success(a);
    ghost var made := fs.tree;
    var finalName := PlaceName(fs, dirKey, prefix, ext, ids.ponto);
    assert finalName == StoredName(old(fs.tree), a);
    if fs.tree != made {
      OverwritePlaceholder(made, dirKey, finalName, binary);
    }
    fs.WriteFile(dirKey, finalName, binary);
    var path := RelativePath(dirKey, finalName);
    res := Success(UploadOut(baseUrl + path, mime, |binary|, ids.registro, ids.ponto, path));
  }

  // ---------------------------------------------------------------- properties

  /** A successful upload writes exactly one file: a name that did not
      exist before the request, holding the decoded bytes, in the record's
      (or the anonymous) directory, with the extension of the MIME type
      whatever the client filename said; the response reports that path,
      the MIME type and the byte count. */
  lemma StoresOneNewFile(tree: Tree, a: Admission, baseUrl: string)
    requires Placeable(a)
    ensures a.target.dirKey in tree ==> StoredName(tree, a) !in tree[a.target.dirKey]
    ensures var name := StoredName(tree, a);
      name[|name| - |a.ext| - 1..] == "." + AllowedMimes[a.mime]
    ensures var path := "/imagens/" + a.target.dirKey + "/" + StoredName(tree, a);
      Apply(tree, Success(a), baseUrl).response ==
        Success(UploadOut(baseUrl + path, a.mime, |a.binary|, a.ids.registro, a.ids.ponto, path))
    ensures Apply(tree, Success(a), baseUrl).tree ==
      tree[a.target.dirKey := (if a.target.dirKey in tree then tree[a.target.dirKey] else map[])[StoredName(tree, a) := a.binary]]
  {
    var dk := a.target.dirKey;
    var made := EnsureDir(tree, dk);
    var n := FinalIndex(made[dk].Keys, a.target.prefix, a.ext, a.ids.ponto);
    CandidateSuffix(a.target.prefix, n, a.ext);
    EnsureDirThenSet(tree, dk, made[dk][StoredName(tree, a) := a.binary]);
  }

  /** Files are never overwritten or removed: every file present before a
      request is present afterwards with the same contents, whatever the
      outcome of admission. */
  lemma KeepsExistingFiles(tree: Tree, adm: Result<Admission, Rejection>, baseUrl: string)
    requires adm.Success? ==> Placeable(adm.value)
    ensures var after := Apply(tree, adm, baseUrl).tree;
      && tree.Keys <= after.Keys
      && forall d, name :: d in tree && name in tree[d] ==> name in after[d] && after[d][name] == tree[d][name]
  {
    if adm.Success? {
      StoresOneNewFile(tree, adm.value, baseUrl);
    }
  }

  /** The whole handler never overwrites or removes a file, whatever the
      request. */
  lemma UploadKeepsExistingFiles(tree: Tree, req: UploadIn, token: string, baseUrl: string)
    ensures var after := UploadSpec(tree, req, token, baseUrl).tree;
      && tree.Keys <= after.Keys
      && forall d, name :: d in tree && name in tree[d] ==> name in after[d] && after[d][name] == tree[d][name]
  {
    match ParseDataUrl(req.dataUrl)
    case Failure(_) =>
    case Success(p) => KeepsExistingFiles(tree, Admit(p, req, token), baseUrl);
  }

  /** A rejected request creates no file. The only trace it can leave is an
      empty directory, when the slot is rejected after `os.makedirs`; every
      other rejection leaves the tree as it was. */
  lemma RejectionStoresNothing(tree: Tree, rej: Rejection, baseUrl: string)
    requires rej.madeDir.Some? <==> rej.error == InvalidPonto
    ensures var e := Apply(tree, Failure(rej), baseUrl);
      && e.response == Failure(rej.error)
      && (rej.error != InvalidPonto ==> e.tree == tree)
      && tree.Keys <= e.tree.Keys
      && |e.tree.Keys - tree.Keys| <= 1
      && forall d :: d in e.tree ==> e.tree[d] == if d in tree then tree[d] else map[]
  {
    if rej.madeDir.Some? {
      var t := EnsureDir(tree, rej.madeDir.value);
      assert t.Keys - tree.Keys <= {rej.madeDir.value};
    }
  }

  /** Every rejection of the data URL aborts the request before the file
      store is touched, with the error `parse_data_url` raised. */
  lemma BadDataUrlChangesNothing(tree: Tree, req: UploadIn, token: string, baseUrl: string)
    requires ParseDataUrl(req.dataUrl).Failure?
    ensures UploadSpec(tree, req, token, baseUrl) == Effect(Failure(ParseDataUrl(req.dataUrl).error), tree)
  {
  }

  /** A negative record is rejected before any directory is created; a
      negative slot with a valid record is rejected after its directory was
      created. */
  lemma NegativeIdsRejected(p: Payload, req: UploadIn, token: string)
    requires p.mime in AllowedMimes
    ensures req.registro.Some? && req.registro.value < 0 ==>
      Admit(p, req, token) == Failure(Rejection(InvalidRegistro, None))
    ensures req.registro.Some? && req.registro.value >= 0 && req.ponto.Some? && req.ponto.value < 0 ==>
      Admit(p, req, token) == Failure(Rejection(InvalidPonto, Some(Decimal.NatToString(req.registro.value))))
  {
  }

  /** The admission of a request whose steps are known. */
  lemma AdmitOf(p: Payload, req: UploadIn, token: string, ids: Ids, t: Target)
    requires p.mime in AllowedMimes
    requires ResolveIds(req.filename, req.registro, req.ponto, AllowedMimes[p.mime]) == ids
    requires StorageTarget(ids.registro, token) == Success(t)
    requires PontoValid(ids.ponto)
    ensures Admit(p, req, token) == Success(Admission(p.mime, p.binary, AllowedMimes[p.mime], ids, t))
  {
  }

  /** A bare filename `<r>-<p>.<ext>`, the extension in any letter case, with
      no explicit fields is admitted
      with record `int(r)` and slot `int(p)`, into the directory and under
      the prefix `str(int(r))`. */
  lemma AdmitFromFilename(p: Payload, req: UploadIn, token: string, reg: string, pt: string, ext: string)
    requires p.mime in AllowedMimes
    requires req.filename == reg + "-" + pt + "." + ext && req.registro.None? && req.ponto.None?
    requires |reg| >= 1 && Decimal.AllDigits(reg) && |pt| >= 1 && Decimal.AllDigits(pt) && Text.Lower(ext) in NameExtensions
    ensures var key := Decimal.NatToString(Decimal.ParseDigits(reg));
      Admit(p, req, token) == Success(Admission(p.mime, p.binary, AllowedMimes[p.mime],
        Ids(Some(Decimal.ParseDigits(reg)), Some(Decimal.ParseDigits(pt))), Target(key, key)))
  {
    var ids := Ids(Some(Decimal.ParseDigits(reg)), Some(Decimal.ParseDigits(pt)));
    ResolveFromBareFilename(reg, pt, ext, None, None, AllowedMimes[p.mime]);
    var key := Decimal.NatToString(Decimal.ParseDigits(reg));
    AdmitOf(p, req, token, ids, Target(key, key));
  }

  /** With no record in the request and a client filename that does not
      match the pattern, the file goes to the anonymous bucket under the
      random token as prefix, and the response has no record. */
  lemma AnonymousUpload(tree: Tree, mime: string, b: seq<byte>, req: UploadIn, token: string, baseUrl: string)
    requires ParseDataUrl(req.dataUrl) == Success(Payload(mime, b))
    requires req.registro.None? && PontoValid(req.ponto)
    requires MatchFilename(ClientName(req.filename, AllowedMimes[mime])).None?
    ensures var a := Admission(mime, b, AllowedMimes[mime], Ids(None, req.ponto), Target(MiscDir, token));
      && Admit(Payload(mime, b), req, token) == Success(a)
      && var path := "/imagens/misc/" + StoredName(tree, a);
         UploadSpec(tree, req, token, baseUrl).response ==
           Success(UploadOut(baseUrl + path, mime, |b|, None, req.ponto, path))
  {
    var ext := AllowedMimes[mime];
    var a := Admission(mime, b, ext, Ids(None, req.ponto), Target(MiscDir, token));
    AdmitOf(Payload(mime, b), req, token, Ids(None, req.ponto), Target(MiscDir, token));
    StoresOneNewFile(tree, a, baseUrl);
    MiscPath(StoredName(tree, a));
  }

  lemma MiscPath(name: string)
    ensures "/imagens/" + MiscDir + "/" + name == "/imagens/misc/" + name
  {
  }

  /** In the anonymous bucket every name starts with the token; without a
      slot, and while `<token>-1.<ext>` is free, the name is that one. */
  lemma AnonymousName(tree: Tree, mime: string, b: seq<byte>, ponto: Option<int>, token: string)
    requires mime in AllowedMimes && PontoValid(ponto)
    ensures var a := Admission(mime, b, AllowedMimes[mime], Ids(None, ponto), Target(MiscDir, token));
      var first := token + "-1." + AllowedMimes[mime];
      && StoredName(tree, a)[..|token| + 1] == token + "-"
      && (ponto.None? && (MiscDir !in tree || first !in tree[MiscDir]) ==> StoredName(tree, a) == first)
  {
    var ext := AllowedMimes[mime];
    var first := token + "-1." + ext;
    var names := EnsureDir(tree, MiscDir)[MiscDir].Keys;
    assert Decimal.NatToString(1) == "1";
    assert Candidate(token, 1, ext) == first;
    if ponto.None? && first !in names {
      FirstFreeLeast(names, token, ext, 1, 1);
    }
  }

  /** Example: `007-03.png` with no explicit fields stores under
      `7/7-3.png` when that directory does not exist yet
      (`str(int("007")) == "7"`). */
  lemma LeadingZerosExample(tree: Tree, b: seq<byte>, dataUrl: string, token: string, baseUrl: string)
    requires ParseDataUrl(dataUrl) == Success(Payload("image/png", b))
    requires "7" !in tree
    ensures UploadSpec(tree, UploadIn("007-03.png", dataUrl, None, None), token, baseUrl) ==
      Effect(Success(UploadOut(baseUrl + "/imagens/7/7-3.png", "image/png", |b|, Some(7), Some(3), "/imagens/7/7-3.png")),
             tree["7" := map["7-3.png" := b]])
  {
    var req := UploadIn("007-03.png", dataUrl, None, None);
    var a := Admission("image/png", b, "png", Ids(Some(7), Some(3)), Target("7", "7"));
    LeadingZerosAdmitted(b, dataUrl, token);
    LeadingZerosName();
    StoresOneNewFile(tree, a, baseUrl);
  }

  lemma LeadingZerosAdmitted(b: seq<byte>, dataUrl: string, token: string)
    ensures Admit(Payload("image/png", b), UploadIn("007-03.png", dataUrl, None, None), token) ==
      Success(Admission("image/png", b, "png", Ids(Some(7), Some(3)), Target("7", "7")))
  {
    assert "007-03.png" == "007" + "-" + "03" + "." + "png";
    LeadingZerosDigits();
    LowerUnchanged("png");
    AdmitFromFilename(Payload("image/png", b), UploadIn("007-03.png", dataUrl, None, None), token, "007", "03", "png");
  }

  lemma LeadingZerosDigits()
    ensures Decimal.ParseDigits("007") == 7 && Decimal.ParseDigits("03") == 3
    ensures Decimal.NatToString(7) == "7"
  {
    assert "007"[..2] == "00" && "00"[..1] == "0";
    assert "03"[..1] == "0";
  }

  lemma LeadingZerosName()
    ensures Candidate("7", 3, "png") == "7-3.png"
    ensures "/imagens/" + "7" + "/" + "7-3.png" == "/imagens/7/7-3.png"
  {
    assert Decimal.NatToString(3) == "3";
  }

  /** Example: `123-4.png` with no explicit fields when `123/123-4.png`
      exists and `123/123-5.png` does not: the file becomes `123-5.png` and
      the response still reports slot 4. */
  lemma OccupiedSlotExample(tree: Tree, b: seq<byte>, dataUrl: string, token: string, baseUrl: string)
    requires ParseDataUrl(dataUrl) == Success(Payload("image/png", b))
    requires "123" in tree && "123-4.png" in tree["123"] && "123-5.png" !in tree["123"]
    ensures UploadSpec(tree, UploadIn("123-4.png", dataUrl, None, None), token, baseUrl) ==
      Effect(Success(UploadOut(baseUrl + "/imagens/123/123-5.png", "image/png", |b|, Some(123), Some(4), "/imagens/123/123-5.png")),
             tree["123" := tree["123"]["123-5.png" := b]])
  {
    var req := UploadIn("123-4.png", dataUrl, None, None);
    var a := Admission("image/png", b, "png", Ids(Some(123), Some(4)), Target("123", "123"));
    OccupiedSlotAdmitted(b, dataUrl, token);
    OccupiedSlotNames();
    FirstFreeLeast(tree["123"].Keys, "123", "png", 5, 5);
    StoresOneNewFile(tree, a, baseUrl);
  }

  lemma OccupiedSlotAdmitted(b: seq<byte>, dataUrl: string, token: string)
    ensures Admit(Payload("image/png", b), UploadIn("123-4.png", dataUrl, None, None), token) ==
      Success(Admission("image/png", b, "png", Ids(Some(123), Some(4)), Target("123", "123")))
  {
    assert "123-4.png" == "123" + "-" + "4" + "." + "png";
    OccupiedSlotDigits();
    LowerUnchanged("png");
    AdmitFromFilename(Payload("image/png", b), UploadIn("123-4.png", dataUrl, None, None), token, "123", "4", "png");
  }

  lemma OccupiedSlotDigits()
    ensures Decimal.ParseDigits("123") == 123 && Decimal.ParseDigits("4") == 4
    ensures Decimal.NatToString(123) == "123"
  {
    assert "123"[..2] == "12" && "12"[..1] == "1";
  }

  lemma OccupiedSlotNames()
    ensures Candidate("123", 4, "png") == "123-4.png"
    ensures Candidate("123", 5, "png") == "123-5.png"
    ensures "/imagens/" + "123" + "/" + "123-5.png" == "/imagens/123/123-5.png"
  {
    assert Decimal.NatToString(4) == "4";
    assert Decimal.NatToString(5) == "5";
  }
}
