/**
 * The download script: `SELECT *` from a table, then the fetched tuples with
 * a header tuple of column names in front, ready for the CSV writer.
 *
 * A fetched tuple is kept abstract (type parameter `V`); the header tuple
 * holds the names from the cursor's description.
 */
module RedshiftDownload {

  /** One entry of the cursor's description: the column name and its type code. */
  datatype ColumnDescription = ColumnDescription(name: string, typeCode: int)

  /** One element of the result list: the header tuple, or a tuple as fetched. */
  datatype OutputRow<V> = HeaderRow(names: seq<string>) | FetchedRow(values: V)

  /** The header tuple: the name of every described column, in description order. */
  function Headers(description: seq<ColumnDescription>): (headers: seq<string>)
    ensures |headers| == |description|
    ensures forall i :: 0 <= i < |description| ==> headers[i] == description[i].name
  {
    seq(|description|, i requires 0 <= i < |description| => description[i].name)
  }

  /**
   * The list the CSV writer receives: the fetched tuples, then the header
   * tuple inserted at position 0.
   */
  method AssembleOutput<V>(fetched: seq<V>, description: seq<ColumnDescription>) returns (result: seq<OutputRow<V>>)
    ensures |result| == |fetched| + 1
    ensures result[0] == HeaderRow(Headers(description))
    ensures forall i :: 0 <= i < |fetched| ==> result[i + 1] == FetchedRow(fetched[i])
  {
    result := seq(|fetched|, i requires 0 <= i < |fetched| => FetchedRow(fetched[i]));
    var headers := Headers(description);
    result := [HeaderRow(headers)] + result;
  }
}
