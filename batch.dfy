/** The spreadsheet batch `processar_planilha` and the single lookup
    `processar_cep_unico`. Each code is normalised, looked up, and recorded
    either as a found row (the code as the user wrote it plus four address
    fields) or as an invalid row (the code alone). */
module Batch {
  import opened Sequences
  import opened Cep
  import opened Lookup

  /** A row of the "found" table: columns CEP, Logradouro, Bairro,
      Localidade and UF. */
  datatype FoundRow = FoundRow(cep: string, logradouro: string, bairro: string, localidade: string, uf: string)

  /** A row of the "invalid" table: column CEP only. */
  datatype InvalidRow = InvalidRow(cep: string)

  /** `dict.get(key, '')`. */
  function Field(address: Response, key: string): string
  {
    if key in address then address[key] else ""
  }

  /** The found row for `cep` built from the body the service returned. */
  function AddressRow(cep: string, address: Response): FoundRow
  {
    FoundRow(cep, Field(address, "logradouro"), Field(address, "bairro"),
             Field(address, "localidade"), Field(address, "uf"))
  }

  /** The hit test of both entry points: the lookup of the normalised code
      is truthy. */
  predicate Resolves(service: Service, cep: string)
  {
    Truthy(FetchAddress(service, StripHyphens(cep)))
  }

  /** The body the service returned for a code that resolves. */
  function ResolvedAddress(service: Service, cep: string): Response
    requires Resolves(service, cep)
  {
    FetchAddress(service, StripHyphens(cep)).value
  }

  // ---------------------------------------------------------------------
  // Input column

  /** A column of cells as read from the sheet: `None` is a missing cell. */
  type Column = seq<Option<string>>

  /** The present cell values, as `Some` cells, in the same order. */
  function Lift(ceps: seq<string>): (cells: Column)
    ensures |cells| == |ceps|
    ensures forall i :: 0 <= i < |ceps| ==> cells[i] == Some(ceps[i])
  {
    if ceps == [] then [] else [Some(ceps[0])] + Lift(ceps[1..])
  }

  /** `dropna()` on the CEP column: the missing cells are removed and the
      present codes kept in their row order. */
  function DropMissing(cells: Column): (ceps: seq<string>)
    ensures |ceps| == |cells| - multiset(cells)[None]
    ensures IsSubsequence(Lift(ceps), cells)
  {
    if cells == [] then []
    else
      assert cells == [cells[0]] + cells[1..];
      var rest := DropMissing(cells[1..]);
      match cells[0]
      case None => rest
      case Some(c) =>
        assert Lift([c] + rest)[1..] == Lift(rest) by {
          assert ([c] + rest)[1..] == rest;
        }
        [c] + rest
  }

  // ---------------------------------------------------------------------
  // Specification of the batch

  /** The two tables of a batch run, in the order their rows were appended. */
  datatype Report = Report(found: seq<FoundRow>, invalid: seq<InvalidRow>)

  /** The report the batch produces for the present codes `ceps`. */
  function Partition(service: Service, ceps: seq<string>): Report
  {
    if ceps == [] then Report([], [])
    else
      var c, rest := ceps[0], Partition(service, ceps[1..]);
      if Resolves(service, c) then Report([AddressRow(c, ResolvedAddress(service, c))] + rest.found, rest.invalid)
      else Report(rest.found, [InvalidRow(c)] + rest.invalid)
  }

  /** The CEP column of the found table. */
  function FoundCodes(rows: seq<FoundRow>): (codes: seq<string>)
    ensures |codes| == |rows|
    ensures forall k :: 0 <= k < |rows| ==> codes[k] == rows[k].cep
  {
    if rows == [] then [] else [rows[0].cep] + FoundCodes(rows[1..])
  }

  /** The CEP column of the invalid table. */
  function InvalidCodes(rows: seq<InvalidRow>): (codes: seq<string>)
    ensures |codes| == |rows|
    ensures forall k :: 0 <= k < |rows| ==> codes[k] == rows[k].cep
  {
    if rows == [] then [] else [rows[0].cep] + InvalidCodes(rows[1..])
  }

  // ---------------------------------------------------------------------
  // The batch itself

  /** The loop of `processar_planilha`: walks the present codes in row
      order, looks each one up once, and appends it to `found` or to
      `invalid`. */
  method ConsultCodes(service: Service, ceps: seq<string>) returns (found: seq<FoundRow>, invalid: seq<InvalidRow>)
    ensures Report(found, invalid) == Partition(service, ceps)
  {
    found, invalid := [], [];
    for i := 0 to |ceps|
      invariant Partition(service, ceps) ==
        Report(found + Partition(service, ceps[i..]).found, invalid + Partition(service, ceps[i..]).invalid)
    {
      var cep := ceps[i];
      assert ceps[i..][0] == cep && ceps[i..][1..] == ceps[i + 1..];
      var address := FetchAddress(service, StripHyphens(cep));
      assert Truthy(address) <==> Resolves(service, cep);
      if Truthy(address) {
        assert address.value == ResolvedAddress(service, cep);
        found := found + [AddressRow(cep, address.value)];
      } else {
        invalid := invalid + [InvalidRow(cep)];
      }
    }
    assert ceps[|ceps|..] == [];
  }

  /** `processar_planilha`: drops the missing cells of the CEP column and
      consults the remaining codes; no present cell is lost or counted
      twice. */
  method ProcessSheet(service: Service, cells: Column) returns (found: seq<FoundRow>, invalid: seq<InvalidRow>)
    ensures Report(found, invalid) == Partition(service, DropMissing(cells))
    ensures |found| + |invalid| == |cells| - multiset(cells)[None]
  {
    var ceps := DropMissing(cells);
    found, invalid := ConsultCodes(service, ceps);
    PartitionCount(service, ceps);
  }

  /** `processar_cep_unico`: the found row for one code, or nothing; it
      agrees with the batch run on that code alone. */
  function ProcessSingle(service: Service, cep: string): (r: Option<FoundRow>)
    ensures r.Some? <==> Resolves(service, cep)
    ensures r.Some? ==> Partition(service, [cep]) == Report([r.value], [])
    ensures r.None? ==> Partition(service, [cep]) == Report([], [InvalidRow(cep)])
  {
    assert [cep][1..] == [];
    var address := FetchAddress(service, StripHyphens(cep));
    if Truthy(address) then Some(AddressRow(cep, address.value)) else None
  }

  // ---------------------------------------------------------------------
  // Properties of the batch

  /** How the code columns of a report grow when one code is put in front. */
  lemma PartitionCodesStep(service: Service, ceps: seq<string>)
    requires ceps != []
    ensures var r, t := Partition(service, ceps), Partition(service, ceps[1..]);
      if Resolves(service, ceps[0])
      then FoundCodes(r.found) == [ceps[0]] + FoundCodes(t.found) && r.invalid == t.invalid
      else InvalidCodes(r.invalid) == [ceps[0]] + InvalidCodes(t.invalid) && r.found == t.found
  {
  }

  /** Every code yields exactly one row: the codes of the two tables
      together are the input codes, duplicates included. */
  lemma {:induction false} PartitionIsPermutation(service: Service, ceps: seq<string>)
    ensures var r := Partition(service, ceps);
      multiset(FoundCodes(r.found)) + multiset(InvalidCodes(r.invalid)) == multiset(ceps)
  {
    if ceps != [] {
      assert ceps == [ceps[0]] + ceps[1..];
      PartitionIsPermutation(service, ceps[1..]);
      PartitionCodesStep(service, ceps);
    }
  }

  /** The two tables together have one row per input code. */
  lemma {:induction false} PartitionCount(service: Service, ceps: seq<string>)
    ensures |Partition(service, ceps).found| + |Partition(service, ceps).invalid| == |ceps|
  {
    if ceps != [] {
      PartitionCount(service, ceps[1..]);
    }
  }

  /** A code is in the found table exactly when it is an input code that
      resolves. */
  lemma {:induction false} FoundMembership(service: Service, ceps: seq<string>)
    ensures forall c :: c in FoundCodes(Partition(service, ceps).found) <==> c in ceps && Resolves(service, c)
  {
    if ceps != [] {
      var c0, rest := ceps[0], ceps[1..];
      FoundMembership(service, rest);
      PartitionCodesStep(service, ceps);
      var codes, tail := FoundCodes(Partition(service, ceps).found), FoundCodes(Partition(service, rest).found);
      assert codes == if Resolves(service, c0) then [c0] + tail else tail;
      forall c ensures c in codes <==> c in ceps && Resolves(service, c) {
        assert c in ceps <==> c == c0 || c in rest by {
          assert ceps == [c0] + rest;
        }
        assert c in tail <==> c in rest && Resolves(service, c);
      }
    }
  }

  /** A code is in the invalid table exactly when it is an input code that
      does not resolve. */
  lemma {:induction false} InvalidMembership(service: Service, ceps: seq<string>)
    ensures forall c :: c in InvalidCodes(Partition(service, ceps).invalid) <==> c in ceps && !Resolves(service, c)
  {
    if ceps != [] {
      var c0, rest := ceps[0], ceps[1..];
      InvalidMembership(service, rest);
      PartitionCodesStep(service, ceps);
      var codes, tail := InvalidCodes(Partition(service, ceps).invalid), InvalidCodes(Partition(service, rest).invalid);
      assert codes == if Resolves(service, c0) then tail else [c0] + tail;
      forall c ensures c in codes <==> c in ceps && !Resolves(service, c) {
        assert c in ceps <==> c == c0 || c in rest by {
          assert ceps == [c0] + rest;
        }
        assert c in tail <==> c in rest && !Resolves(service, c);
      }
    }
  }

  /** Each input code lands in exactly one of the two tables. */
  lemma ExactlyOneTable(service: Service, ceps: seq<string>, c: string)
    requires c in ceps
    ensures c in FoundCodes(Partition(service, ceps).found) <==> c !in InvalidCodes(Partition(service, ceps).invalid)
  {
    FoundMembership(service, ceps);
    InvalidMembership(service, ceps);
  }

  /** Both tables keep the input order of their codes. */
  lemma {:induction false} PartitionKeepsInputOrder(service: Service, ceps: seq<string>)
    ensures IsSubsequence(FoundCodes(Partition(service, ceps).found), ceps)
    ensures IsSubsequence(InvalidCodes(Partition(service, ceps).invalid), ceps)
  {
    if ceps != [] {
      var c, rest := ceps[0], ceps[1..];
      PartitionKeepsInputOrder(service, rest);
      PartitionCodesStep(service, ceps);
      var r, t := Partition(service, ceps), Partition(service, rest);
      if Resolves(service, c) {
        var fc := FoundCodes(r.found);
        assert fc[0] == c && fc[1..] == FoundCodes(t.found);
      } else {
        var vc := InvalidCodes(r.invalid);
        assert vc[0] == c && vc[1..] == InvalidCodes(t.invalid);
      }
    }
  }

  /** Every found row keeps the code as written and takes each address
      field from the service's body, or "" where the body lacks the key. */
  lemma {:induction false} FoundRowsDescribeAddresses(service: Service, ceps: seq<string>)
    ensures forall row :: row in Partition(service, ceps).found ==>
      Resolves(service, row.cep) &&
      var a := ResolvedAddress(service, row.cep);
      && row.logradouro == (if "logradouro" in a then a["logradouro"] else "")
      && row.bairro == (if "bairro" in a then a["bairro"] else "")
      && row.localidade == (if "localidade" in a then a["localidade"] else "")
      && row.uf == (if "uf" in a then a["uf"] else "")
  {
    if ceps != [] {
      FoundRowsDescribeAddresses(service, ceps[1..]);
    }
  }

  /** Every invalid row holds an input code that does not resolve. */
  lemma InvalidRowsAreUnresolved(service: Service, ceps: seq<string>)
    ensures forall row :: row in Partition(service, ceps).invalid ==> row.cep in ceps && !Resolves(service, row.cep)
  {
  }

  /** Two codes with the same normal form get the same verdict and, when
      found, the same address fields. */
  lemma SameNormalFormSameOutcome(service: Service, c1: string, c2: string)
    requires StripHyphens(c1) == StripHyphens(c2)
    ensures ProcessSingle(service, c1).Some? == ProcessSingle(service, c2).Some?
    ensures ProcessSingle(service, c1).Some? ==>
      ProcessSingle(service, c1).value.(cep := c2) == ProcessSingle(service, c2).value
  {
  }

  /** A code written with a hyphen and the same code without it give the
      same verdict and the same address. */
  lemma HyphenatedCodeSameOutcome(service: Service, a: string, b: string)
    ensures ProcessSingle(service, a + [Hyphen] + b).Some? == ProcessSingle(service, a + b).Some?
    ensures ProcessSingle(service, a + b).Some? ==>
      ProcessSingle(service, a + [Hyphen] + b).value.(cep := a + b) == ProcessSingle(service, a + b).value
  {
    HyphenInsensitive(a, b);
    SameNormalFormSameOutcome(service, a + [Hyphen] + b, a + b);
  }

  /** The batch is the single lookup applied row after row: the verdict
      of `processar_cep_unico` on the first code decides where its row goes. */
  lemma PartitionCons(service: Service, c: string, rest: seq<string>)
    ensures var t := Partition(service, rest);
      Partition(service, [c] + rest) ==
        match ProcessSingle(service, c)
        case Some(row) => Report([row] + t.found, t.invalid)
        case None => Report(t.found, [InvalidRow(c)] + t.invalid)
  {
  }

  /** The lookup of "01001-000" when the service knows "01001000". */
  lemma KnownCodeExample(service: Service)
    requires service("01001000") ==
      Body(map["logradouro" := "Praça da Sé", "bairro" := "Sé", "localidade" := "São Paulo", "uf" := "SP"])
    ensures ProcessSingle(service, "01001-000") == Some(FoundRow("01001-000", "Praça da Sé", "Sé", "São Paulo", "SP"))
  {
    var address := map["logradouro" := "Praça da Sé", "bairro" := "Sé", "localidade" := "São Paulo", "uf" := "SP"];
    TemplateCodeNormalForm();
    assert FetchAddress(service, StripHyphens("01001-000")) == Some(address) by {
      assert ErrorKey !in address by {
        assert ErrorKey[0] == 'e';
        assert forall k | k in address :: k[0] != 'e';
      }
    }
    assert Field(address, "logradouro") == "Praça da Sé";
    assert Field(address, "bairro") == "Sé";
    assert Field(address, "localidade") == "São Paulo";
    assert Field(address, "uf") == "SP";
  }

  /** The lookup of "00000-000" when the service flags "00000000" as unknown. */
  lemma UnknownCodeExample(service: Service)
    requires service("00000000") == Body(map[ErrorKey := "true"])
    ensures ProcessSingle(service, "00000-000") == None
  {
    assert "00000-000" == "00000" + [Hyphen] + "000";
    HyphenatedNormalForm("00000", "000");
    assert "00000" + "000" == "00000000";
  }

  /** A two-row sheet: "01001-000" resolves to the Praça da Sé address and
      "00000-000" is one the service reports as unknown. */
  lemma TwoRowSheetExample(service: Service)
    requires service("01001000") ==
      Body(map["logradouro" := "Praça da Sé", "bairro" := "Sé", "localidade" := "São Paulo", "uf" := "SP"])
    requires service("00000000") == Body(map[ErrorKey := "true"])
    ensures Partition(service, ["01001-000", "00000-000"]) ==
      Report([FoundRow("01001-000", "Praça da Sé", "Sé", "São Paulo", "SP")], [InvalidRow("00000-000")])
  {
    KnownCodeExample(service);
    UnknownCodeExample(service);
    PartitionCons(service, "00000-000", []);
    PartitionCons(service, "01001-000", ["00000-000"]);
    assert ["01001-000", "00000-000"] == ["01001-000"] + ["00000-000"];
    assert ["00000-000"] == ["00000-000"] + [];
  }
}
