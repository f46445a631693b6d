/** Status and label rules of the client list in crm.py: which statuses
    count as dispersed, the "(Sin asesor)" label, and the sidebar filters,
    where an empty selection or a selection of every option means no
    filtering. */
module Labels {
  import opened Runtime
  import opened Text
  import opened Normalize
  import opened Frames
  import opened Catalog

  /** The spellings `_is_dispersion` compares against. */
  const DispersionLabels: seq<string> := ["DISPERSADO", "EN DISPERSIÓN", "EN DISPERSION"]

  /** `_is_dispersion(estatus)` for the key function `keyOf`: the status
      has the key of one of the dispersion spellings. */
  function IsDispersionBy(keyOf: string -> string, estatus: string): (r: bool)
    ensures r <==> exists k :: 0 <= k < |DispersionLabels| && keyOf(DispersionLabels[k]) == keyOf(estatus)
  {
    assert DispersionLabels[0] == "DISPERSADO" && DispersionLabels[1] == "EN DISPERSIÓN";
    assert DispersionLabels[2] == "EN DISPERSION";
    keyOf(estatus) in {keyOf("DISPERSADO"), keyOf("EN DISPERSIÓN"), keyOf("EN DISPERSION")}
  }

  /** `_is_dispersion(estatus)` with `_norm_key`; a missing status has the
      key of "". */
  function IsDispersion(lib: Lib, estatus: Option<string>): (r: bool)
    // the status has the key of one of the dispersion spellings
    ensures r <==> exists k :: 0 <= k < |DispersionLabels| && NormKey(lib, Some(DispersionLabels[k])) == NormKey(lib, estatus)
  {
    IsDispersionBy(KeyOf(lib), estatus.GetOr([]))
  }

  /** The test ignores surrounding whitespace and the length of inner
      whitespace runs, so "  en   dispersion " is read as "EN DISPERSION"
      is, and every listed spelling counts. */
  lemma DispersionIgnoresSpacing(lib: Lib, s: string)
    ensures IsDispersion(lib, Some(Squash(s))) == IsDispersion(lib, Some(s))
    ensures IsDispersion(lib, Some(Trim(s))) == IsDispersion(lib, Some(s))
    ensures forall k :: 0 <= k < |DispersionLabels| ==> IsDispersion(lib, Some(DispersionLabels[k]))
  {
    NormKeyOfSquash(lib, s);
    NormKeyOfTrim(lib, s);
    assert KeyOf(lib)(Squash(s)) == KeyOf(lib)(s);
    assert KeyOf(lib)(Trim(s)) == KeyOf(lib)(s);
  }

  /** The label of a client without an advisor. */
  const SinAsesor := "(Sin asesor)"

  /** `_norm_sin_asesor_label(x)`: any case or spacing of "(sin asesor)"
      becomes the one label, any other text is stripped. */
  function NormSinAsesor(lib: Lib, x: Option<string>): (r: string)
    ensures r == SinAsesor || r == Trim(x.GetOr([]))
    ensures lib.casefold(Trim(x.GetOr([]))) == "(sin asesor)" ==> r == SinAsesor
    ensures lib.casefold(Trim(x.GetOr([]))) != "(sin asesor)" ==> r == Trim(x.GetOr([]))
  {
    var s := Trim(x.GetOr([]));
    if lib.casefold(s) == "(sin asesor)" then SinAsesor else s
  }

  /** Normalising a label twice is normalising it once, given that the fold
      maps the label itself to "(sin asesor)". */
  lemma NormSinAsesorIdempotent(lib: Lib, x: Option<string>)
    requires lib.casefold(SinAsesor) == "(sin asesor)"
    ensures NormSinAsesor(lib, Some(NormSinAsesor(lib, x))) == NormSinAsesor(lib, x)
  {
    var r := NormSinAsesor(lib, x);
    if r == SinAsesor {
      TrimFixpoint(SinAsesor);
    } else {
      TrimFixpoint(Trim(x.GetOr([])));
    }
  }

  /** The label of a missing branch. */
  const SinSucursal := "(Sin sucursal)"
  /** The label of a missing source. */
  const SinFuente := "(Sin fuente)"

  /** `series.fillna("").replace({"": empty})` of one cell. */
  function Labelled(c: Cell, empty: string): (r: string)
    ensures c.Some? && c.value != [] ==> r == c.value
    ensures c.None? || c.value == [] ==> r == empty
  {
    if FillEmpty(c) == [] then empty else FillEmpty(c)
  }

  /** The fields of a client the filters look at. */
  datatype Client = Client(sucursal: Cell, asesor: Cell, estatus: Cell, fuente: Cell)

  /** One sidebar filter: its selection and all of its options. */
  datatype Filter = Filter(selected: seq<string>, all: seq<string>)

  /** `not sel or len(sel) == 0 or set(sel) == set(all)`: the filter lets
      everything through. */
  predicate Open(f: Filter) {
    f.selected == [] || (set x | x in f.selected) == (set x | x in f.all)
  }

  /** The mask of one filter for one value; a missing status matches no
      selection. */
  predicate Passes(f: Filter, v: Option<string>) {
    Open(f) || (v.Some? && v.value in f.selected)
  }

  /** The four filters of the sidebar. */
  datatype Filters = Filters(suc: Filter, ases: Filter, est: Filter, fuente: Filter)

  /** `suc_mask & est_mask & asesor_mask & fuente_mask` for one client. */
  predicate Keep(fs: Filters, c: Client) {
    && Passes(fs.suc, Some(Labelled(c.sucursal, SinSucursal)))
    && Passes(fs.ases, Some(Labelled(c.asesor, SinAsesor)))
    && Passes(fs.est, c.estatus)
    && Passes(fs.fuente, Some(Labelled(c.fuente, SinFuente)))
  }

  /** `df_cli[mask]`: the clients the filters keep, in order. */
  function FilterClients(fs: Filters, cs: seq<Client>): (r: seq<Client>)
    ensures |r| <= |cs|
    ensures forall k :: 0 <= k < |r| ==> Keep(fs, r[k])
  {
    if cs == [] then []
    else (if Keep(fs, cs[0]) then [cs[0]] else []) + FilterClients(fs, cs[1..])
  }

  /** A client is listed exactly when it is in the table and every filter
      lets it through. */
  lemma {:induction false} FilterMembers(fs: Filters, cs: seq<Client>, c: Client)
    ensures c in FilterClients(fs, cs) <==> c in cs && Keep(fs, c)
  {
    if cs != [] {
      FilterMembers(fs, cs[1..], c);
      assert cs == [cs[0]] + cs[1..];
    }
  }

  /** Filters that are all empty or all complete list the whole table. */
  lemma {:induction false} OpenFiltersKeepAll(fs: Filters, cs: seq<Client>)
    requires Open(fs.suc) && Open(fs.ases) && Open(fs.est) && Open(fs.fuente)
    ensures FilterClients(fs, cs) == cs
  {
    if cs != [] {
      OpenFiltersKeepAll(fs, cs[1..]);
      assert cs == [cs[0]] + cs[1..];
    }
  }

  /** Filtering the filtered table changes nothing. */
  lemma {:induction false} FilterIdempotent(fs: Filters, cs: seq<Client>)
    ensures FilterClients(fs, FilterClients(fs, cs)) == FilterClients(fs, cs)
  {
    if cs != [] {
      FilterIdempotent(fs, cs[1..]);
      var rest := FilterClients(fs, cs[1..]);
      if Keep(fs, cs[0]) {
        var c := cs[0];
        assert ([c] + rest)[0] == c && ([c] + rest)[1..] == rest;
        assert FilterClients(fs, [c] + rest) == [c] + FilterClients(fs, rest);
        assert FilterClients(fs, cs) == [c] + rest;
      } else {
        assert FilterClients(fs, cs) == rest;
      }
    }
  }
}
