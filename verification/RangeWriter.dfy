/** The range status writers. */
module RangeWriter {
  import opened Options
  import opened BlockRanges
  import opened RangeLedger

  class RangeTables {
    var rawBlocks: map<int, RawBlock>
    var ingestionRanges: map<RangeKey, RangeRow>
    var rangeFailures: seq<Failure>

    constructor ()
      ensures Contents() == EMPTY
    {
      rawBlocks, ingestionRanges, rangeFailures := map[], map[], [];
    }

    ghost function Contents(): Ledger
      reads this
    {
      Ledger(rawBlocks, ingestionRanges, rangeFailures)
    }

    method InsertRawBlocks(blocks: map<int, RawBlock>)
      modifies this
      ensures Contents() == old(Contents()).(blocks := old(rawBlocks) + blocks)
    {
      rawBlocks := rawBlocks + blocks;
    }

    /** The ranges table replaces by its key. */
    method InsertRangeState(key: RangeKey, row: RangeRow)
      modifies this
      ensures Contents() == old(Contents()).(ranges := old(ingestionRanges)[key := row])
    {
      ingestionRanges := ingestionRanges[key := row];
    }

    /** The failure log only grows. */
    method InsertRangeFailure(key: RangeKey, reason: seq<Problem>)
      modifies this
      ensures Contents() == old(Contents()).(failures := old(rangeFailures) + [Failure(key, reason)])
    {
      rangeFailures := rangeFailures + [Failure(key, reason)];
    }

    method MarkRawRangeRunning(key: RangeKey)
      modifies this
      ensures Contents() == MarkRunning(old(Contents()), key)
    {
      if IsCompleted(ingestionRanges, key) { return; }
      InsertRangeState(key, StatusRow(Running, key));
    }

    method MarkRawRangeFailed(key: RangeKey, reason: seq<Problem>)
      modifies this
      ensures Contents() == MarkFailed(old(Contents()), key, reason)
    {
      if IsCompleted(ingestionRanges, key) { return; }
      InsertRangeState(key, StatusRow(Failed, key));
      InsertRangeFailure(key, reason);
    }

    /** `reading` is what the statistics and boundary queries returned. */
    method FinalizeRawRange(key: RangeKey, reading: Reading) returns (ok: bool)
      requires IsReading(Contents(), key.range, reading)
      modifies this
      ensures Finalized(Contents(), ok) == Finalize(old(Contents()), key, reading)
    {
      hide AreStats, Problems, MarkFailed;
      var expected := ExpectedBlockCount(key.range);
      if expected <= 0 { return false; }
      var st := reading.stats;
      var errors := Validate(key, reading);
      if |errors| > 0 {
        MarkRawRangeFailed(key, errors);
        return false;
      }
      InsertRangeState(key, RangeRow(Completed, st.firstHash, st.firstParentHash, st.lastHash, st.count, expected,
                                     st.broken));
      return true;
    }

    method Validate(key: RangeKey, reading: Reading) returns (errors: seq<Problem>)
      requires IsReading(Contents(), key.range, reading)
      ensures errors == Problems(Contents(), key.range, reading.stats, reading.previous, reading.next)
    {
      hide AreStats, ProblemIf;
      var st := reading.stats;
      errors := PushIf([], st.count != ExpectedBlockCount(key.range), WrongCount);
      assert errors == ProblemIf(st.count != ExpectedBlockCount(key.range), WrongCount);
      errors := PushIf(errors, st.min != key.range.fromBlock, WrongMin);
      errors := PushIf(errors, st.max != key.range.toBlock, WrongMax);
      errors := PushIf(errors, st.broken > 0, BrokenLinks);
      var boundary := ValidateAdjacentRanges(key, reading);
      errors := errors + boundary;
    }

    static method PushIf(errors: seq<Problem>, wrong: bool, problem: Problem) returns (next: seq<Problem>)
      ensures next == errors + ProblemIf(wrong, problem)
    {
      next := if wrong then errors + [problem] else errors;
    }

    method ValidateAdjacentRanges(key: RangeKey, reading: Reading) returns (errors: seq<Problem>)
      requires IsReading(Contents(), key.range, reading)
      ensures errors
        == ProblemIf(reading.previous.Some?
                     && ingestionRanges[reading.previous.value].lastHash != reading.stats.firstParentHash,
                       PreviousMismatch)
                      + ProblemIf(reading.next.Some?
                                  && ingestionRanges[reading.next.value].firstParentHash != reading.stats.lastHash,
                                    NextMismatch)
    {
      errors := [];
      if key.range.fromBlock > 0 && reading.previous.Some?
        && ingestionRanges[reading.previous.value].lastHash != reading.stats.firstParentHash {
        errors := errors + [PreviousMismatch];
      }
      if reading.next.Some? && ingestionRanges[reading.next.value].firstParentHash != reading.stats.lastHash {
        errors := errors + [NextMismatch];
      }
    }
  }
}
