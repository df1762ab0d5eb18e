/**
 * `lambda_handler` of the aggregation Lambda: reads the batch named by a
 * queue message, computes the revenue report, writes it to the final bucket
 * under `<prefix>/<today><suffix>`, and deletes the message. Every failure
 * after the message attributes are read is logged and swallowed.
 */
module Aggregator {
  import opened Wrappers
  import opened Text
  import opened Storage
  import opened Splitter
  import opened Attribution

  /** An SQS record: its receipt handle and the `bucket_name` and `file_name` attributes, when present. */
  datatype QueueMessage = QueueMessage(receipt: string, bucketName: Option<string>, fileName: Option<string>)

  const UploadedBody: string := "\"Successfully uploaded final output to s3.\""

  /** `file_path.rsplit('/', 1)[0]`: the path up to its last `/`, or the whole path when it has none. */
  function BatchPrefix(filePath: string): (prefix: string)
    ensures '/' !in filePath ==> prefix == filePath
    ensures '/' in filePath ==> exists name :: '/' !in name && filePath == prefix + "/" + name
  {
    var prefix := BeforeLast(filePath, '/');
    if '/' in filePath then
      var name := filePath[|prefix| + 1..];
      assert filePath == prefix + "/" + name;
      prefix
    else prefix
  }

  /** The prefix of a path is its directory: the part before the final `/`-free name. */
  lemma BatchPrefixOfPath(dir: string, name: string)
    requires '/' !in name
    ensures BatchPrefix(dir + "/" + name) == dir
  {
    BeforeLastConcat(dir, name, '/');
    assert dir + "/" + name == dir + ['/'] + name;
  }

  /**
   * The message names the marker `<today>/Success.json`, so the batch prefix
   * is the split's date folder.
   */
  lemma MarkerPrefix(today: string)
    ensures BatchPrefix(MarkerKey(today)) == today
  {
    assert MarkerKey(today) == today + "/" + "Success.json";
    assert '/' !in "Success.json";
    BatchPrefixOfPath(today, "Success.json");
  }

  /** The report's key in the final bucket: `prefix + '/' + str(today) + final_output_file_name`. */
  function ReportKey(prefix: string, today: string, outputName: string): (key: string)
    ensures |key| == |prefix| + 1 + |today| + |outputName|
    ensures key[..|prefix|] == prefix && key[|prefix|] == '/' && key[|prefix| + 1..] == today + outputName
  {
    prefix + "/" + today + outputName
  }

  /** On the same day, two batches with different prefixes write different report keys. */
  lemma ReportKeysDistinct(p1: string, p2: string, today: string, outputName: string)
    requires p1 != p2
    ensures ReportKey(p1, today, outputName) != ReportKey(p2, today, outputName)
  {
    var k1, k2 := ReportKey(p1, today, outputName), ReportKey(p2, today, outputName);
    if |p1| == |p2| {
      assert k1[..|p1|] == p1 && k2[..|p2|] == p2;
    } else {
      assert |k1| != |k2|;
    }
  }

  /**
   * The report the handler computes from what `read_files_s3` returned:
   * `None` when reading raised, otherwise what `revenue_calc` returns.
   */
  function BatchReport(read: Option<seq<HitRow>>): (report: Option<seq<Record>>)
    ensures report.None? <==>
      || read.None?
      || exists i :: 0 <= i < |read.value| && read.value[i].referrer.None?
    ensures read == Some([]) ==> report == Some([])
  {
    match read
    case None => None
    case Some(rows) => RevenueReport(rows)
  }

  /** Lines 43-44 of the handler: `revenue_calc` over what was read, nothing when reading failed. */
  method ComputeReport(read: Option<seq<HitRow>>) returns (report: Option<seq<Record>>)
    ensures report == BatchReport(read)
  {
    report := None;
    if read.Some? {
      report := RevenueCalc(read.value);
    }
  }

  /**
   * `lambda_handler`. `read` stands for the rows `read_files_s3` returns for
   * the message's bucket and prefix (`None` when it raised), and `today` for
   * `date.today()`. A missing attribute raises before anything happens; past
   * that point the report is written when there is one, it is not empty
   * (`wr.s3.to_csv` refuses an empty frame) and the bucket takes it, the
   * message is deleted whatever happened, and the handler reports success.
   */
  method LambdaHandler(final: Bucket<seq<Record>>, queue: Queue, msg: QueueMessage,
                       read: Option<seq<HitRow>>, today: string, outputName: string)
    returns (response: Option<Response>)
    modifies final, queue
    ensures msg.bucketName.None? || msg.fileName.None? ==>
      response.None? && final.objects == old(final.objects) && final.writeLog == old(final.writeLog)
      && queue.inFlight == old(queue.inFlight)
    ensures msg.bucketName.Some? && msg.fileName.Some? ==>
      var key := ReportKey(BatchPrefix(msg.fileName.value), today, outputName);
      var report := BatchReport(read);
      var written := report.Some? && |report.value| > 0 && key !in final.refuses;
      && response == Some(Response(200, UploadedBody))
      && final.objects == (if written then old(final.objects)[key := report.value] else old(final.objects))
      && final.writeLog == (if written then old(final.writeLog) + [key] else old(final.writeLog))
      && queue.inFlight == old(queue.inFlight) - {msg.receipt}
  {
    if msg.bucketName.None? || msg.fileName.None? {
      return None;
    }
    var key := ReportKey(BatchPrefix(msg.fileName.value), today, outputName);
    var report := ComputeReport(read);
    if report.Some? && |report.value| > 0 {
      var _ := final.Put(key, report.value);
    }
    queue.Delete(msg.receipt);
    response := Some(Response(200, UploadedBody));
  }
}
