/**
 * `lambda_handler` of the upload Lambda: runs both checks, builds the status
 * message step by step, splits the file only when both checks passed, and
 * publishes the message to the DQ topic. A split that raises propagates
 * out of the handler, so no message is published then.
 */
module DqHandler {
  import opened Wrappers
  import opened Storage
  import opened DqChecks
  import opened Splitter

  const DoneBody: string := "\"DQ complete and file split was successful.\""

  /** The part of the status message the two checks contribute. */
  function ChecksMessage(formatOk: bool, columnsOk: bool): (msg: string)
    ensures |msg| >= 47
    ensures formatOk <==> msg[..24] == "File format looks good. "
    ensures columnsOk <==> msg[|msg| - 24..] == "File columns look good. "
  {
    var format := if formatOk then "File format looks good. " else "File format has issue. ";
    var columns := if columnsOk then "File columns look good. " else "File columns has issue. ";
    var msg := format + columns;
    assert msg[..24] == format + columns[..24 - |format|];
    assert msg[12] == format[12] && "File format looks good. "[12] == 'l';
    assert columns[13] == (if columnsOk then 'l' else 'h') && "File columns look good. "[13] == 'l';
    assert msg[|msg| - 24..] == columns;
    msg
  }

  /**
   * The checks part of `lambda_handler`: appends one sentence per check to
   * the message and clears `dqFlag` when a check fails.
   */
  method RunChecks(cfg: Config, contentType: string, contents: string) returns (msg: string, dqFlag: bool)
    ensures msg == ChecksMessage(CheckFileFormat(contentType, cfg.fileType), CheckFileColumns(contents, cfg.expectedColumns))
    ensures dqFlag <==> CheckFileFormat(contentType, cfg.fileType) && CheckFileColumns(contents, cfg.expectedColumns)
  {
    var formatOk := CheckFileFormat(contentType, cfg.fileType);
    var columnsOk := CheckFileColumns(contents, cfg.expectedColumns);
    msg := "";
    dqFlag := true;
    if formatOk {
      msg := msg + "File format looks good. ";
    } else {
      msg := msg + "File format has issue. ";
      dqFlag := false;
    }
    assert msg == if formatOk then "File format looks good. " else "File format has issue. ";
    if columnsOk {
      msg := msg + "File columns look good. ";
    } else {
      msg := msg + "File columns has issue. ";
      dqFlag := false;
    }
  }

  /**
   * Handles the object-created event for `fileName`, whose object reports
   * `contentType`, whose body is `contents`, and which parses to `hitData`.
   */
  method LambdaHandler(target: Bucket<Payload>, topic: Topic, cfg: Config, fileName: string,
                       contentType: string, contents: string, hitData: Frame, today: string)
    returns (r: Result<Response, SplitError>, ghost split: Result<string, SplitError>)
    modifies target, topic
    ensures var formatOk := CheckFileFormat(contentType, cfg.fileType);
      var columnsOk := CheckFileColumns(contents, cfg.expectedColumns);
      var msg := ChecksMessage(formatOk, columnsOk);
      if formatOk && columnsOk then
        && SplitOutcome(SplitPlan(cfg, fileName, today, hitData), target.refuses,
                        old(target.objects), old(target.writeLog), target.objects, target.writeLog, msg, split)
        && (split.Success? ==> topic.messages == old(topic.messages) + [split.value]
                               && r == Success(Response(200, DoneBody)))
        && (split.Failure? ==> topic.messages == old(topic.messages) && r == Failure(split.error))
      else
        && target.objects == old(target.objects) && target.writeLog == old(target.writeLog)
        && topic.messages == old(topic.messages) + [msg]
        && r == Success(Response(200, DoneBody))
  {
    var msg, dqFlag := RunChecks(cfg, contentType, contents);
    split := Success(msg);
    if dqFlag {
      var outcome := TransformSplitFiles(target, cfg, fileName, today, hitData, msg);
      split := outcome;
      if outcome.Failure? {
        return Failure(outcome.error), split;
      }
      msg := outcome.value;
    }
    topic.Publish(msg);
    r := Success(Response(200, DoneBody));
  }
}
