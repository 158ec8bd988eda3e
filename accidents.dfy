/** The accident records the dashboard works on, and the columns the core reads from them. */
module Accidents {

  /** One accident: the state (UF) where it happened, the month name, the cause and the number of
      deaths. The other columns of the dataset are read only by the charts and are not modelled. */
  datatype Record = Record(uf: string, mes: string, causaAcidente: string, mortos: nat)

  /** The cause-selector value that means "every cause". */
  const Todas: string := "TODAS"

  /** One text column of the records, row by row (`frame['uf']`, `frame['mes']`, ...). */
  function Column(rs: seq<Record>, field: Record -> string): (col: seq<string>)
    ensures |col| == |rs|
    ensures forall i :: 0 <= i < |rs| ==> col[i] == field(rs[i])
    ensures forall v :: v in col <==> exists r :: r in rs && field(r) == v
  {
    var col := seq(|rs|, i requires 0 <= i < |rs| => field(rs[i]));
    assert forall r :: r in rs ==> field(r) in col by {
      forall r | r in rs ensures field(r) in col {
        var i :| 0 <= i < |rs| && rs[i] == r;
        assert col[i] == field(r);
      }
    }
    col
  }
}
