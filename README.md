# A verified model of the custom and indexed row tables of an in-memory column store

The store answers a fixed set of operations on a table of integer rows:
`getIntField`, `putIntField`, `SELECT SUM(col0)`,
`SELECT SUM(col0) WHERE col1 > t1 AND col2 < t2`,
`SELECT SUM(col0) + ... + SUM(coln) WHERE col0 > t` and
`UPDATE (col3 = col3 + col2) WHERE col0 < t`. This project models two of its
table layouts in Dafny and proves that each one answers these operations on
the rows it holds.

**`CustomTable`** splits the table into `mask + 1` partitions (workers). The
worker count is a power of two derived from the processor count. A row with
key `k` (its col0) belongs to worker `k & mask` and lives in bucket
`k / (mask + 1)` there. Each bucket keeps five parallel dense columns:
- the row ids;
- col1 as shorts;
- col2;
- col3;
- the overflow columns col4 and up, as shorts.

The key itself is not stored; it is rebuilt from the bucket number. Each
worker also keeps:
- a row-id index (`col0_index`) from each row id to its bucket and offset;
- a running key sum;
- two cached aggregates per bucket: every field, and col2 alone.

A key put can move a row to another bucket of the same worker, or migrate it
to another worker through a message of shorts. That message is encoded by the
sender and decoded by the receiver.

- `Partition.Worker` is a class whose fields are those columns, the index and
  the aggregates, as sequences the methods reassign.
  - A ghost map `rows` holds the logical rows the worker owns.
  - `Valid()` says the columns, the index, the aggregates and `rows` agree.
  - Every method keeps `Valid()` and states its new `rows` and its answer in
    terms of the rows.
- The reasoning about a change is carried out on values in `Transitions`
  (`Consistent` is `Valid()` over values). The bucket layout is in
  `BucketColumns`, the row-id index in `BucketIndex`, and the message format
  in `Wire`.
- `Dispatch` models the dispatcher, run sequentially: every command goes to
  every worker and the replies are combined. It proves:
  - the workers' row sets split the table;
  - the split survives loads, puts and updates;
  - the summed replies are the answer over the whole table.

The cached "every field" aggregate includes col3. The code adds it at
CustomTable.java:262, although the comment at :258 says col3 is left out. The
model follows the code.

**`IndexedRowTable`** stores the rows row-major in one flat buffer. It keeps a
map from each value of the indexed column to the list of the rows that hold
it.
- `IndexedTable.IndexedRowTable` is a class over an `array<int>` buffer and a
  map-valued index.
- The index is proved exact: each list holds, each once, exactly the rows
  with that value.
- The queries that use the index are proved equal to the plain scan.
- The update on the col3-indexed table rebuilds the index, and the result is
  proved to be the loader's index of the new column.

## Model

| member | source | states |
|---|---|---|
| Bits.WorkerCount | src/main/java/memstore/table/CustomTable.java:35-50 | the worker count is a power of two between 1 and 32, at most the processor count when there is one, and more than half the processor count unless it is 32 |
| Bits.BitAndLowMask | src/main/java/memstore/table/CustomTable.java:206 | for a power of two `p`, `k & (p - 1)` is `k % p`, so a worker owns the keys congruent to its index |
| Bits.LastBlockPastEnd | src/main/java/memstore/table/CustomTable.java:677-684 | the update's last bucket as the code computes it lies past bucket `nb - 1` exactly when the threshold exceeds the key of bucket `nb` |
| Bits.ClampedLastBlock | src/main/java/memstore/table/CustomTable.java:677-684 | the last bucket, clamped, always names a bucket of the worker or none (-1) |
| Bits.ClampedLastBlockOrder | src/main/java/memstore/table/CustomTable.java:677-686 | for every threshold that is not negative, a bucket is scanned by the clamped update exactly when its key is below the threshold |
| Bits.KeyOrder | src/main/java/memstore/table/CustomTable.java:677-684 | keys written `bucket * (mask + 1) + index` compare like (bucket, index) pairs, which is why a bucket range selects a key range |
| Partition.CountBuckets | src/main/java/memstore/table/CustomTable.java:210-221 | the loader's per-bucket count is the number of the worker's rows whose key falls in that bucket |
| Partition.Capacities | src/main/java/memstore/table/CustomTable.java:236-243 | every bucket gets room for its loaded rows plus `BUCKET_BUFFER` |
| Partition.EmptyWorker | src/main/java/memstore/table/CustomTable.java:189-243 | before the load loop a worker is consistent with no rows, and every bucket's capacity exceeds the rows the table will put there |
| Partition.Worker.Load | src/main/java/memstore/table/CustomTable.java:180-283 | after loading, the worker is consistent and owns exactly the table's rows whose key it owns |
| Partition.OwnedStep | src/main/java/memstore/table/CustomTable.java:244-246 | one more row of the table is taken in exactly when its key belongs to the worker |
| Partition.Worker.GetIntField | src/main/java/memstore/table/CustomTable.java:387-402 | the answer is the stored field of an owned row, and -1 for a row owned elsewhere |
| Partition.SlotSum | src/main/java/memstore/table/CustomTable.java:434-436 | the receiver's loop adds up the first `k` shorts of the message |
| Partition.PlaceRow | src/main/java/memstore/table/CustomTable.java:409-438 | appending a row to a bucket (the five pushes, its index entry naming the new last slot) keeps the worker consistent, the row now owned with the given key and fields, and adds its key to the key sum; only that bucket grows |
| Partition.Worker.AppendRow | src/main/java/memstore/table/CustomTable.java:409-438 | the worker owns the appended row in addition to its previous rows and stays consistent |
| Partition.Worker.ReceiveRow | src/main/java/memstore/table/CustomTable.java:406-441 | a migrating row arrives as the new key followed by the fields its message decodes to |
| Partition.RemoveRowSlot | src/main/java/memstore/table/CustomTable.java:518-539 | the delete by swap: every column of the bucket loses its last slot, which fills the hole, and the moved row's index entry follows it |
| Partition.TakeSlot | src/main/java/memstore/table/CustomTable.java:547-614 | taking a row out, by the delete by swap of its slot with its own index entry cleared, keeps the worker consistent without it, removes its key from the key sum, and returns exactly the fields it held besides its key |
| Partition.Worker.RemoveRow | src/main/java/memstore/table/CustomTable.java:571-614 | the worker then owns its previous rows minus that one, and the returned fields are that row's |
| Partition.Worker.SendRow | src/main/java/memstore/table/CustomTable.java:547-614 | the row leaves the worker, and the message it sends decodes to the row's fields |
| Partition.Worker.MoveRow | src/main/java/memstore/table/CustomTable.java:464-546 | a key change within the worker rewrites that row's key and leaves every other row and field as it was; the columns and the index end up as the code's order (push onto the new bucket and point the entry there, then delete the old slot by swap) leaves them |
| Partition.TakeThenPush | src/main/java/memstore/table/CustomTable.java:483-540 | deleting the row's old slot and then pushing it onto another bucket leaves the columns and the index that pushing first and deleting after leaves |
| Partition.WriteCell | src/main/java/memstore/table/CustomTable.java:446-632 | a put of a non-key field overwrites that one cell of the row and keeps both aggregates exact |
| Partition.Worker.PutField | src/main/java/memstore/table/CustomTable.java:446-632 | the owned row takes the new value in that column only |
| Partition.CellKeySum | src/main/java/memstore/table/CustomTable.java:446-632 | overwriting a non-key field leaves the key sum alone |
| Partition.Worker.PutIntField | src/main/java/memstore/table/CustomTable.java:404-635 | the new rows are those a put defines: a negative column is refused, a key change that leaves the worker sends exactly the row's fields, and the receiver takes the row in under its new key |
| Partition.Worker.ColumnSum | src/main/java/memstore/table/CustomTable.java:644-646 | the running key sum is the sum of the keys of the owned rows |
| Partition.Worker.PredicatedColumnSum | src/main/java/memstore/table/CustomTable.java:655-666 | the answer is the sum of the keys of the owned rows with col1 > t1 and col2 < t2 |
| Partition.Worker.StartBucket | src/main/java/memstore/table/CustomTable.java:707-719 | the first bucket summed is the first one whose key exceeds the threshold, so every later bucket's key exceeds it and no earlier one's does |
| Partition.Worker.AboveTotal | src/main/java/memstore/table/CustomTable.java:722-724 | from that bucket on, the cached bucket totals add up to every field of every owned row whose key exceeds the threshold |
| Partition.Worker.PredicatedAllColumnsSum | src/main/java/memstore/table/CustomTable.java:705-727 | the answer is the sum of every field of the owned rows whose key exceeds the threshold |
| Partition.Worker.EndOrder | src/main/java/memstore/table/CustomTable.java:677-684 | for any threshold, the last bucket updated (clamped to the last bucket) exists and is the last one whose key is below the threshold |
| Partition.Worker.CountUpTo | src/main/java/memstore/table/CustomTable.java:686-687 | the sizes of the buckets up to it add up to the number of owned rows whose key is below the threshold |
| Partition.Worker.NothingBelow | src/main/java/memstore/table/CustomTable.java:675 | a negative threshold selects no row, so returning 0 at once is the update's answer |
| Partition.UpdateBuckets | src/main/java/memstore/table/CustomTable.java:686-692 | the loops add col2 to col3 in every slot of the selected buckets, add each bucket's col2 total to its total of all fields, and count its slots |
| Partition.Worker.PredicatedUpdate | src/main/java/memstore/table/CustomTable.java:674-698 | for any threshold, exactly the owned rows whose key is below it get col3 + col2 in col3, and the count is the number of those rows |
| Transitions.ReceiveKeeps | src/main/java/memstore/table/CustomTable.java:409-438 | appending a row keeps columns, index, rows and both aggregates consistent |
| Transitions.SendKeeps | src/main/java/memstore/table/CustomTable.java:571-611 | deleting a row by swap keeps columns, index, rows and both aggregates consistent |
| Transitions.CellKeeps | src/main/java/memstore/table/CustomTable.java:446-632 | overwriting one cell, with the aggregates moved by the difference, keeps the worker consistent |
| Transitions.UpdateKeeps | src/main/java/memstore/table/CustomTable.java:686-692 | updating the buckets whose key is below the threshold keeps the worker consistent, with those rows updated |
| BucketColumns.AppendDeleteCommute | src/main/java/memstore/table/CustomTable.java:483-540 | appending the moved row first and deleting its old slot after, as the code does, gives the same columns and index as the other order |
| SlotSums.RangeIsRowTotal | src/main/java/memstore/table/CustomTable.java:657-664 | summing over the row ids the index marks as present is summing over the owned rows |
| SlotSums.SlotsCoverRange | src/main/java/memstore/table/CustomTable.java:657-664 | summing over every slot of every bucket is summing over the row ids the index marks as present |
| Wire.Encode | src/main/java/memstore/table/CustomTable.java:551-559 | the message of a row with `w` overflow columns is `2 * (w + 4)` bytes long |
| Wire.DecodeEncode | src/main/java/memstore/table/CustomTable.java:421-429 | decoding an encoded row gives back its overflow columns, col1 and col3, and col2 truncated to 16 bits |
| Wire.DecodeEncodeExact | src/main/java/memstore/table/CustomTable.java:555-558 | the round trip is exact if and only if col2 fits in 16 bits |
| Wire.SlotsOfDecode | src/main/java/memstore/table/CustomTable.java:433-436 | the receiver's running sum over the message's first shorts is the overflow columns plus col1 plus col2 |
| Wire.SlotsOfEncode | src/main/java/memstore/table/CustomTable.java:563-567 | the sender's sum over the first shorts of its message is the sum of the overflow columns |
| Wire.Migrate | src/main/java/memstore/table/CustomTable.java:406-441 | a row that migrates arrives with its new key and every other field unchanged if and only if its col2 fits in 16 bits |
| Dispatch.LoadSplits | src/main/java/memstore/table/CustomTable.java:760-766 | loading into `p` workers splits the table: each row is held, unchanged, by exactly the worker its key names |
| Dispatch.PartsTotalIsRowTotal | src/main/java/memstore/table/CustomTable.java:832-842 | when the workers split the table, their answers to any query add up to the answer over the whole table |
| Dispatch.SumReplies | src/main/java/memstore/table/CustomTable.java:823-947 | the dispatcher's sum of one reply per worker is the query's answer over the whole table |
| Dispatch.GetIntFieldOfOwner | src/main/java/memstore/table/CustomTable.java:777-797 | every field of the table is answered with its value, by the one worker that holds its row |
| Dispatch.PutSplits | src/main/java/memstore/table/CustomTable.java:803-814 | a put of the value cast to a short, seen by every worker, leaves the workers splitting the table with that field changed |
| Dispatch.UpdateSplits | src/main/java/memstore/table/CustomTable.java:924-947 | the update run by every worker, with any threshold, leaves them splitting the updated table |
| Findings.KeyPutAsWritten | src/main/java/memstore/table/CustomTable.java:455-460 | with the "nothing changed" test as written, a key put either acts as intended or leaves the rows unchanged although the key differed |
| Findings.KeyPutAsWrittenDropsChange | src/main/java/memstore/table/CustomTable.java:457 | one worker, three rows with key 5: putting key 7 into the row at offset 2 is dropped as written, although the row should then have key 7 |
| Findings.MoveCol2SumsAsWrittenBreaks | src/main/java/memstore/table/CustomTable.java:504-542 | as written, moving a row with a nonzero col2 to another bucket leaves that bucket's col2 total short by the row's col2 |
| Findings.MoveCol2SumsKeeps | src/main/java/memstore/table/CustomTable.java:504-542 | adding the moved col2 to the new bucket's col2 total keeps every bucket's col2 total exact |
| Findings.EndBucketAsWrittenOverruns | src/main/java/memstore/table/CustomTable.java:677-688 | as written, the update's last bucket lies past the worker's buckets exactly when the threshold exceeds `MAX_FIELD + index` |
| Findings.EndBucketOneWorker | src/main/java/memstore/table/CustomTable.java:677-688 | one worker with 1024 buckets and threshold 2000: as written the scan runs to bucket 1999, the clamped scan stops at 1023 |
| Dispatch.NegativeFieldUnanswered | src/main/java/memstore/table/CustomTable.java:298-306 | a table whose one row has col1 == -3: as written, no reply to `getIntField(0, 1)` reaches the dispatcher, although the field should be answered |
| IndexedRows.WriteMirrors | src/main/java/memstore/table/IndexedRowTable.java:88-89 | writing the offset `rowId * numCols + colId` changes exactly that one field of the table |
| IndexedRows.IndexOfIndexed | src/main/java/memstore/table/IndexedRowTable.java:54-60 | the loader's index lists, once each and in ascending order, exactly the rows that hold each value |
| IndexedRows.ReindexKeeps | src/main/java/memstore/table/IndexedRowTable.java:78-87 | moving the row id from its old value's list to the new value's list keeps the index exact |
| IndexedRows.SumIdsIsSumWhere | src/main/java/memstore/table/IndexedRowTable.java:119-127 | a list of distinct row ids adds up to the rows it names, whatever its order |
| IndexedRows.KeysCover | src/main/java/memstore/table/IndexedRowTable.java:118 | the rows of the index keys in range are all the rows the query takes something from |
| IndexedRows.KeysBelowUpdate | src/main/java/memstore/table/IndexedRowTable.java:199-205 | once every key below the threshold is visited, the rows updated are exactly those whose col0 is below it |
| IndexedRows.UpdatedColumn | src/main/java/memstore/table/IndexedRowTable.java:203 | the update query changes col3 only, so an index on any other column stays exact |
| IndexedRows.UpdateTwice | src/main/java/memstore/table/IndexedRowTable.java:196-244 | running the update twice counts the same rows twice and adds col2 twice to their col3 |
| IndexedTable.IndexedRowTable.constructor | src/main/java/memstore/table/IndexedRowTable.java:30-32 | a new table has its index column set and holds no rows |
| IndexedTable.LoadCells | src/main/java/memstore/table/IndexedRowTable.java:46-61 | the fresh buffer holds the table row-major, and the index is the loader's index of the indexed column |
| IndexedTable.IndexedRowTable.Load | src/main/java/memstore/table/IndexedRowTable.java:41-62 | after loading, the table holds the loaded rows with an exact, ascending index |
| IndexedTable.IndexedRowTable.GetIntField | src/main/java/memstore/table/IndexedRowTable.java:68-71 | the answer is the field at that row and column |
| IndexedTable.IndexedRowTable.PutIntField | src/main/java/memstore/table/IndexedRowTable.java:77-90 | the one field changes, and the index stays exact: on the indexed column the row id moves from its old value's list to the new value's list, otherwise the index is untouched |
| IndexedTable.IndexedRowTable.ColumnSum | src/main/java/memstore/table/IndexedRowTable.java:99-105 | the answer is the sum of col0 over every row |
| IndexedTable.IndexedRowTable.PredicatedColumnSum | src/main/java/memstore/table/IndexedRowTable.java:115-154 | whichever column is indexed, the answer is the sum of col0 over the rows with col1 > t1 and col2 < t2 |
| IndexedTable.IndexedRowTable.MatchedViaCol1 | src/main/java/memstore/table/IndexedRowTable.java:116-128 | going through the index keys above t1 gives the same answer as the scan |
| IndexedTable.IndexedRowTable.MatchedViaCol2 | src/main/java/memstore/table/IndexedRowTable.java:129-141 | going through the index keys below t2 gives the same answer as the scan |
| IndexedTable.IndexedRowTable.RowSum | src/main/java/memstore/table/IndexedRowTable.java:180-182 | the inner loop over a row's offsets adds up every field of that row |
| IndexedTable.IndexedRowTable.PredicatedAllColumnsSum | src/main/java/memstore/table/IndexedRowTable.java:163-187 | the answer is the sum of every field of the rows whose col0 exceeds the threshold |
| IndexedTable.ScanCells | src/main/java/memstore/table/IndexedRowTable.java:208-218 | the scan leaves the buffer holding the updated table, and counts the rows whose col0 is below the threshold |
| IndexedTable.UpdateKeysBelow | src/main/java/memstore/table/IndexedRowTable.java:197-206 | going through the col0 index keys below the threshold updates and counts exactly the rows the scan would |
| IndexedTable.IndexedRowTable.RebuildIndex | src/main/java/memstore/table/IndexedRowTable.java:219-228 | the rebuilt index is the loader's index of the new col3, and the rows are unchanged |
| IndexedTable.IndexedRowTable.PredicatedUpdate | src/main/java/memstore/table/IndexedRowTable.java:196-244 | exactly the rows whose col0 is below the threshold get col3 + col2 in col3, the count is the number of those rows, and the index stays exact (rebuilt when it is on col3) |

## Left out

- Threads, the command and result queues, their timeouts and `System.exit` are not modelled. The dispatcher is a sequential reduction over the workers' replies (`Dispatch`), and a worker's command loop is not modelled beyond the `getIntField` reply filter.
- `verify()`, `panic` and the debug output are left out; they only print or check.
- 32-bit and 64-bit arithmetic is not modelled. Fields, sums and counts are unbounded integers, so an overflowing `long` sum or `int` count is not captured.
- The only narrowings modelled are the `(short)` cast of a put's value by the dispatcher and col2 travelling as a short in a migration message.
- The `ByteBuffer` byte offsets (`FIELD_LEN * (rowId * numCols + colId)`) are modelled as cell offsets `rowId * numCols + colId` of an `int` buffer.
- The loader's `ByteBuffer` rows are sequences of integers.
- A bucket's stale slots beyond its `size` are not modelled. Each column of a bucket is its live prefix.
- Each index list of `IndexedRowTable` is a sequence and `IntArrayList.rem` removes the first occurrence. The index is a map, and the `TreeMap` views (`tailMap`, `headMap`) are visited one key at a time, in no particular order. Each method proves its answer does not depend on that order.
- Partition.Worker.Load: requires at least four columns, every row of that width, every key in `[0, MAX_FIELD)`, and col1, col2 and the overflow fields to fit in 16 bits. The source checks none of these.
  - Fewer than four columns make it size the overflow bucket with `numCols - 4` (CustomTable.java:241) and read col3 past the end of the row (:251).
  - A key out of range makes it throw.
  - It silently truncates col1 and the overflow fields to shorts.
  - It keeps col2 as a full `int` (:225, :256) and adds it whole to both bucket totals (:261, :264). col2 is cut to 16 bits only when its row migrates (:555). The sender then subtracts the cut value from both totals of the old bucket (:610-611), so those totals drift by a multiple of 65536, and the receiver stores the cut col2.
  - The model keeps col2 within 16 bits in every bucket (`BucketLayout`), so that drift is not modelled. The truncation itself is stated at the message level by `Wire.DecodeEncodeExact` and `Wire.Migrate`.
- Partition.Worker.GetIntField: requires `rowId` below the row count and `colId` from 0 to below the column count. The source checks neither. A row id out of range makes the index read throw. A negative `colId` reaches `bucket_rest[bucket].getShort(bucket_index, colId - 4)`, which reads the overflow slot of a neighbouring row or throws. A `colId` past the last column reads past the row's overflow fields in the same way.
- Partition.Worker.PutIntField: requires `rowId` below the row count (the source's `col0_index.get(2 * rowId)` at CustomTable.java:405 throws on a larger one, and the worker exits), the column below the column count, a new key in `[0, MAX_FIELD)`, room in the destination bucket and a 32-bit col3 in a migrating row. The source checks none of these; a key or column out of range makes it fail or corrupt its state.
- IndexedTable.IndexedRowTable.Load: requires at least four columns, every row of that width, and the indexed column below the column count. The source checks none of these. With an indexed column at or past the width, `curRow.getInt(FIELD_LEN * indexColumn)` (IndexedRowTable.java:54) reads past the row and throws.
- IndexedTable.IndexedRowTable.GetIntField: requires the row and column in range. The source would read a neighbouring cell or fail.
- IndexedTable.IndexedRowTable.PutIntField: requires `rowId` and `colId` to be at least 0, with `rowId` below the row count and `colId` below the column count. The source checks neither. A `colId` at or past the column count writes offset `rowId * numCols + colId`, a cell of a later row. An offset outside the buffer throws.
- IndexedTable.IndexedRowTable.PredicatedUpdate: with the index on col0, the code writes col3 through `putIntField`. Because col3 is not the indexed column, that call only writes the cell, so the model writes the cell directly.
- Dispatch.PutSplits: requires a row to exist for the put and the column to be in range. A key put also needs a new key in `[0, MAX_FIELD)` once cast to a short, and a moved row whose fields fit their columns. A put to a missing row, or a key outside that range, is not modelled; the source's worker indexes past its buckets for a key of `MAX_FIELD` or more and exits. The lemma is stated over the row sets alone, so it cannot say that the destination bucket has room. The source's worker fails and exits on a push into a full bucket, while `Partition.Worker.PutIntField` requires that room.
- Dispatch.UpdateSplits: states the update of workers that stop at their last bucket (see Findings). As written, a threshold above `MAX_FIELD + index` makes worker `index` scan past its last bucket and exit, so for a threshold above `MAX_FIELD` the source gives no answer.

## Findings

| source | as written | input that shows it | evidently intended | confidence | as-written member | corrected member |
|---|---|---|---|---|---|---|
| src/main/java/memstore/table/CustomTable.java:457 | the "nothing changed" test for a key put compares `bucket * mask_p1 + bucket_index`, using the row's offset in the bucket where the key has the worker index | one worker (`mask == 0`), three rows with key 5 loaded in order; `putIntField(2, 0, 7)` meets `5 * 1 + 2 == 7` and is dropped | compare with the stored key `bucket * mask_p1 + index` | high, not executed | Findings.KeyPutAsWrittenDropsChange | Partition.Worker.PutIntField |
| src/main/java/memstore/table/CustomTable.java:464-546 | a move to another bucket of the same worker subtracts the row's col2 from the old bucket's col2 total (:542) but never adds it to the new bucket's | a row with col2 == 4 moved from bucket 0 to bucket 1; bucket 1's col2 total stays 4 short, so a later `predicatedUpdate` adds too little to its total of all fields | add the moved col2 to `bucket_sum_col2[field_bucket]` | high, not executed | Findings.MoveCol2SumsAsWrittenBreaks | Findings.MoveCol2SumsKeeps |
| src/main/java/memstore/table/CustomTable.java:298-299 | the worker drops a `getIntField` reply below 0, taking it for "not my row" | a row whose col1 is -3; `getIntField(0, 1)` gets no reply, and the dispatcher times out and exits | answer whenever the row is held, even with a negative value | high, not executed | Dispatch.NegativeFieldUnanswered | Dispatch.GetIntFieldOfOwner |
| src/main/java/memstore/table/CustomTable.java:677-688 | `workerPredicatedUpdate` computes its last bucket from the threshold alone and never bounds it by the bucket count | one worker (`mask == 0`, 1024 buckets), `predicatedUpdate(2000)`: the last bucket is 1999, so `buckets3[1024]` is read and the worker exits | clamp `end_bucket` to `num_of_buckets - 1` | high, not executed | Findings.EndBucketAsWrittenOverruns | Bits.ClampedLastBlockOrder |
