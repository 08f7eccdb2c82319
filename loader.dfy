/**
 The loader: the table read once at start-up and the summary table
 `resumen_df` that every chart is drawn from — the rows whose DEPARTAMENTO is
 not null, projected onto seven columns, in the order the file lists them.
 Reading the CSV file and coercing FECHA_REGISTRO with `pd.to_datetime` are
 outside the model: rows arrive already parsed, their date already a date.
 */
module Loader {
  import opened Wrappers
  import opened Selection

  /** A registration timestamp after date coercion; the charts' filter reads only its year. */
  datatype Date = Date(year: int, month: int, day: int)

  /** A float64 cell, kept as its bit pattern: the loader and the filter only pass it through. */
  datatype Float64 = Float64(bits: bv64)

  /** A row of the loaded table: the seven columns the dashboard reads, DEPARTAMENTO nullable, and the file's other cells. */
  datatype RawRow = RawRow(
    departamento: Option<string>,
    fechaRegistro: Date,
    montoViable: Float64,
    costoActualizado: Float64,
    sector: string,
    entidad: string,
    avanceFisico: Float64,
    otherColumns: seq<string>)

  /** A row of the summary table: exactly the seven projected columns, with a department. */
  datatype Record = Record(
    departamento: string,
    fechaRegistro: Date,
    montoViable: Float64,
    costoActualizado: Float64,
    sector: string,
    entidad: string,
    avanceFisico: Float64)

  /** The loader object; its one field holds the loaded table. */
  class DataLoader {
    var df: seq<RawRow>

    /** Loads the (already parsed) rows of the CSV file into `df`, unchanged and in file order. */
    constructor (parsed: seq<RawRow>)
      ensures df == parsed
    {
      df := parsed;
    }
  }

  /** The mask `df['DEPARTAMENTO'].notnull()`. */
  predicate HasDepartment(row: RawRow)
  {
    row.departamento.Some?
  }

  /** The projection onto the seven summary columns, for a row that has a department. */
  function Project(row: RawRow): Record
    requires HasDepartment(row)
  {
    Record(row.departamento.value, row.fechaRegistro, row.montoViable, row.costoActualizado,
           row.sector, row.entidad, row.avanceFisico)
  }

  /** `rec` carries the seven columns of `row` unchanged, and `row`'s department is not null. */
  predicate CopiedFrom(rec: Record, row: RawRow)
  {
    && row.departamento == Some(rec.departamento)
    && rec.fechaRegistro == row.fechaRegistro
    && rec.montoViable == row.montoViable
    && rec.costoActualizado == row.costoActualizado
    && rec.sector == row.sector
    && rec.entidad == row.entidad
    && rec.avanceFisico == row.avanceFisico
  }

  /** `resumen_df`: the rows with a department, then the seven columns of each. */
  function Summary(df: seq<RawRow>): seq<Record>
  {
    var kept := Filter(HasDepartment, df);
    seq(|kept|, k requires 0 <= k < |kept| => Project(kept[k]))
  }

  /**
   The summary is the loaded table read at the positions whose DEPARTAMENTO is
   not null, in increasing order, each row reduced to its seven columns; there
   are as many summary rows as rows with a department.
   */
  lemma {:induction false} SummaryIsProjectionOfNonNullRows(df: seq<RawRow>)
    ensures |Summary(df)| == |KeptIndices(HasDepartment, df)| == Count(HasDepartment, df)
    ensures forall k :: 0 <= k < |Summary(df)| ==>
      CopiedFrom(Summary(df)[k], df[KeptIndices(HasDepartment, df)[k]])
  {
    FilterAtKeptIndices(HasDepartment, df);
    FilterLength(HasDepartment, df);
  }

  /** No row with a department is dropped: it appears in the summary as its projection. */
  lemma {:induction false} SummaryRetainsNonNullRow(df: seq<RawRow>, i: nat)
    requires i < |df| && HasDepartment(df[i])
    ensures Project(df[i]) in Summary(df)
  {
    var idx := KeptIndices(HasDepartment, df);
    FilterAtKeptIndices(HasDepartment, df);
    var k :| 0 <= k < |idx| && idx[k] == i;
    assert Summary(df)[k] == Project(df[i]);
  }

  /** Every summary row is the projection of a row of the loaded table with a non-null department. */
  lemma {:induction false} SummaryRowsComeFromNonNullRows(df: seq<RawRow>)
    ensures forall rec :: rec in Summary(df) ==>
      exists i :: 0 <= i < |df| && CopiedFrom(rec, df[i])
  {
    SummaryIsProjectionOfNonNullRows(df);
    var idx := KeptIndices(HasDepartment, df);
    forall rec | rec in Summary(df)
      ensures exists i :: 0 <= i < |df| && CopiedFrom(rec, df[i])
    {
      var k :| 0 <= k < |Summary(df)| && Summary(df)[k] == rec;
      assert CopiedFrom(rec, df[idx[k]]);
    }
  }

  /** Module start-up: build the loader from the parsed file and derive the summary table. */
  method LoadSummary(parsed: seq<RawRow>) returns (resumen: seq<Record>)
    ensures resumen == Summary(parsed)
  {
    var loader := new DataLoader(parsed);
    resumen := Summary(loader.df);
  }
}
