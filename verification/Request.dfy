/**
  The per-request state the dispatcher works on: current and saved
  filehandle, the current export, and what is cached of that export.
  The client's address is fixed, so an export's client list is reduced to
  whether it admits this client.
 */
module Request {
  import opened Wrappers
  import opened Bytes

  type ExportId = Byte

  const PSEUDO_ROOT: ExportId := 0xFF

  datatype SecFlavor = Sys | Krb5 | Krb5i | Krb5p

  /** The `sec` list of an export and whether its `clients` list admits the client. */
  datatype Access = Access(sec: seq<SecFlavor>, admits: bool)

  datatype Export = Export(access: Access, readOnly: bool)

  type Table = map<ExportId, Export>

  /** A filehandle: the first two bytes of its id route it, `object` is the rest. */
  datatype Filehandle = Filehandle(version: Byte, exportByte: Byte, object: ByteString)

  datatype Req = Req(
    filehandle: Option<Filehandle>,
    saved: Option<Filehandle>,
    export_: Option<ExportId>,
    access: Option<Access>,
    readOnly: bool,
    limited: bool,
    flavor: SecFlavor)

  function NewReq(flavor: SecFlavor): Req
  {
    Req(None, None, None, None, false, false, flavor)
  }

  /** `export_id_from_fh` */
  function ExportOf(fh: Filehandle): ExportId
  {
    if fh.version == 2 && fh.exportByte == PSEUDO_ROOT then PSEUDO_ROOT else fh.exportByte
  }

  /** `set_export`: an unknown id keeps what was cached of the previous export. */
  function SetExport(table: Table, r: Req, id: ExportId): Req
  {
    if id == PSEUDO_ROOT then r.(export_ := Some(id), access := None, readOnly := false, limited := false)
    else if id in table then
      r.(export_ := Some(id), access := Some(table[id].access), readOnly := table[id].readOnly, limited := true)
    else r.(export_ := Some(id))
  }

  /** `check_client_access` */
  predicate AdmitsClient(r: Req) { r.access.Some? ==> r.access.value.admits }

  /** `allows_flavor`: an empty list means plain AUTH_SYS. */
  predicate AllowsFlavor(a: Access, flavor: SecFlavor)
  {
    if a.sec == [] then flavor == Sys else flavor in a.sec
  }

  /** `sec_allowed` */
  predicate SecAllowed(r: Req)
  {
    match r.access
    case Some(a) => AllowsFlavor(a, r.flavor)
    case None => r.export_.None? || r.flavor == Sys
  }

  function SaveFh(r: Req): Req { r.(saved := r.filehandle) }

  function RestoreFh(table: Table, r: Req): (Req, bool)
  {
    match r.saved
    case None => (r, false)
    case Some(fh) =>
      var moved := if r.export_ != Some(ExportOf(fh)) then SetExport(table, r, ExportOf(fh)) else r;
      (moved.(filehandle := Some(fh)), true)
  }

  // ------------------------------------------------------------ what is cached

  predicate Known(table: Table, id: ExportId) { id == PSEUDO_ROOT || id in table }

  /** What is cached is what the table holds for the current export. */
  predicate Cached(table: Table, r: Req)
  {
    match r.export_
    case None => r.access.None? && !r.readOnly
    case Some(id) =>
      if id == PSEUDO_ROOT then r.access.None? && !r.readOnly
      else id in table ==> r.access == Some(table[id].access) && r.readOnly == table[id].readOnly
  }

  /** Several switches in a row. */
  function SetExports(table: Table, r: Req, ids: seq<ExportId>): Req
    decreases |ids|
  {
    if ids == [] then r else SetExports(table, SetExport(table, r, ids[0]), ids[1..])
  }

  lemma {:induction false} SwitchesKeepCached(table: Table, r: Req, ids: seq<ExportId>)
    requires Cached(table, r)
    ensures Cached(table, SetExports(table, r, ids))
    decreases |ids|
  {
    if ids != [] {
      SwitchesKeepCached(table, SetExport(table, r, ids[0]), ids[1..]);
    }
  }

  /** Every caller is refused but AUTH_SYS at the pseudo-root, once it is the current export. */
  lemma PseudoRootAllowsOnlySys(table: Table, r: Req)
    ensures SecAllowed(SetExport(table, r, PSEUDO_ROOT)) <==> r.flavor == Sys
    ensures SecAllowed(NewReq(r.flavor))
  {
  }

  /** A list of flavours admits those on it, and an empty one AUTH_SYS; an export's clients list admits who is on it. */
  lemma WhoIsAllowed(r: Req, a: Access)
    ensures SecAllowed(r.(access := Some(a))) <==> (r.flavor in a.sec || (|a.sec| == 0 && r.flavor == Sys))
    ensures AdmitsClient(r.(access := Some(a))) <==> a.admits
    ensures AdmitsClient(r.(access := None))
  {
  }

  /**
    A switch onto an export of the table brings its guards and its limiter; onto the
    pseudo-root, none; and nothing else changes.
   */
  lemma SwitchBrings(table: Table, r: Req, id: ExportId)
    ensures var moved := SetExport(table, r, id);
            && moved.export_ == Some(id) && moved.flavor == r.flavor
            && moved.filehandle == r.filehandle && moved.saved == r.saved
            && (id == 255 ==> moved.access == None && !moved.readOnly && !moved.limited)
            && (id != 255 && id in table ==>
                  moved.access == Some(table[id].access) && moved.readOnly == table[id].readOnly && moved.limited)
            && (id != 255 && id !in table ==>
                  moved.access == r.access && moved.readOnly == r.readOnly && moved.limited == r.limited)
  {
  }

  /** A switch to an unknown id changes no guard but that of a request that had no export: the old export's stay. */
  lemma UnknownExportKeepsGuards(table: Table, r: Req, id: ExportId)
    requires !Known(table, id)
    ensures var moved := SetExport(table, r, id);
            && AdmitsClient(moved) == AdmitsClient(r) && moved.readOnly == r.readOnly
            && (SecAllowed(moved) == SecAllowed(r) <==> r.access.Some? || r.export_.Some? || r.flavor == Sys)
  {
  }

  /**
    RESTOREFH undoes every move since SAVEFH: whatever exports the request
    visited, the handle, its export and what is cached of it are back.
   */
  lemma RestoreUndoesMoves(table: Table, r: Req, fh: Filehandle, later: Req)
    requires r.filehandle == Some(fh) && r.export_ == Some(ExportOf(fh)) && Known(table, ExportOf(fh))
    requires Cached(table, r) && Cached(table, later) && later.saved == SaveFh(r).saved
    ensures RestoreFh(table, later).1
    ensures var back := RestoreFh(table, later).0;
            && back.filehandle == r.filehandle && back.export_ == r.export_
            && back.access == r.access && back.readOnly == r.readOnly
            && back.saved == later.saved && back.flavor == later.flavor
            && Cached(table, back)
  {
  }

  /** The request object and the methods that change it. */
  class LiveRequest {
    var filehandle: Option<Filehandle>
    var saved: Option<Filehandle>
    var currentExport: Option<ExportId>
    var access: Option<Access>
    var readOnly: bool
    var limited: bool
    var flavor: SecFlavor

    function AsValue(): Req
      reads this
    {
      Req(filehandle, saved, currentExport, access, readOnly, limited, flavor)
    }

    constructor (flavor: SecFlavor)
      ensures AsValue() == NewReq(flavor)
    {
      filehandle, saved, currentExport, access := None, None, None, None;
      readOnly, limited := false, false;
      this.flavor := flavor;
    }

    method SwitchExport(table: Table, id: ExportId)
      modifies this
      ensures AsValue() == SetExport(table, old(AsValue()), id)
      ensures Cached(table, old(AsValue())) ==> Cached(table, AsValue())
    {
      currentExport := Some(id);
      if id == PSEUDO_ROOT {
        access, readOnly, limited := None, false, false;
        return;
      }
      if id in table {
        access, readOnly, limited := Some(table[id].access), table[id].readOnly, true;
      }
    }

    /** `save_filehandle`: restoring at once changes nothing, as long as the handle belongs to the current export. */
    method SaveFilehandle()
      modifies this`saved
      ensures AsValue() == SaveFh(old(AsValue()))
      ensures forall table: Table :: RestoreFh(table, AsValue()).1 <==> filehandle.Some?
      ensures forall table: Table :: filehandle.Some? && currentExport == Some(ExportOf(filehandle.value)) ==>
                RestoreFh(table, AsValue()).0 == AsValue()
    {
      saved := filehandle;
    }

    method RestoreFilehandle(table: Table) returns (ok: bool)
      modifies this
      ensures (AsValue(), ok) == RestoreFh(table, old(AsValue()))
      ensures Cached(table, old(AsValue())) ==> Cached(table, AsValue())
    {
      if saved.None? {
        return false;
      }
      var id := ExportOf(saved.value);
      if currentExport != Some(id) {
        SwitchExport(table, id);
      }
      filehandle := saved;
      return true;
    }
  }
}
