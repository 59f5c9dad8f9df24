/**
  The dispatch of `parse_statement` in `moa/frontend/frontend.py`: only the
  `moa` front end exists; its parser is not part of this model, so the table
  it produces is a parameter. The function arguments are then scanned as in
  module `Arguments` (the copy without the index rule) and discarded.
*/
module Frontend {
  import opened Wrappers
  import opened Errors
  import opened MoaAst
  import opened Arguments

  /**
    `parse_statement`: any front end other than `moa` raises `ValueError`;
    otherwise the statement's table is scanned for function arguments, which
    raises exactly when the scan does, and nothing is returned.
  */
  method ParseStatement(frontend: string, parsed: SymbolTable, order: seq<string>) returns (r: Result<(), Exception>)
    requires forall x :: x in order <==> x in parsed
    ensures frontend != "moa" ==> r == Err(ValueError)
    ensures frontend == "moa" ==> (r.Err? <==> ScanFails(BackendScan, parsed, order))
    ensures frontend == "moa" && r.Err? ==> r.error == NotImplementedError
  {
    if frontend != "moa" {
      return Err(ValueError);
    }
    var symbols := DetermineArguments(BackendScan, parsed, order);
    if symbols.Err? {
      return Err(symbols.error);
    }
    return Ok(());
  }
}
