# getassoc: a verified model of its in-memory algorithms

getassoc is an associative search engine written in C. Documents and terms are kept as two
directions of one frequency matrix; a query is scored against posting lists, filtered by boolean
expressions and by a full-text search, and the documents found can be clustered. This project models
the algorithms underneath and proves what they promise.

The modules follow the source files.

- `Nvmt` (nvmt.c, nvmt.h): a flat index space over mapped fragments and in-memory fragments of another
  size. Reads and writes through the address macros are reads and writes of one sequence; closing writes
  fragment files that opening always accepts and that give the same sequence again; allocated blocks do
  not cross fragments and do not overlap.
- `Nht`, `Nit` (nht.c): the string hash table with its family of hash functions, tombstones and in-place
  rehash, as a finite map; and the dense id table over a store.
- `NcsScore`, `NcsForest`, `Ncs`, `Dendrogram` (ncs.c): hierarchical clustering with cached row maxima,
  from the recurrence on the probability matrix to the cut of the dendrogram.
- `Fss`, `SeekIdx` (fss.c, mkri.c): the OR-of-ANDs query algebra with its two id sets; the section files,
  the scan that accepts them, and the bitmap that guides the way from a text byte back to its section
  header.
- `Priq`, `KMerge` (priq.c, priq.h): the binary heap, and merging sorted streams over it.
- `Ranking`, `Assv` (assv.c): what the bounded heap keeps of the documents found, ties included; and a
  whole search, from the query terms, the boolean filter and the full-text query to the ranking.
- `Bx`, `Bxutil` (bx.c, bxutil.c): the boolean expression compiler, evaluator and term lookup.
- `NwamVec`, `Nwam` (nwam.c): frequency vectors in place, and the update of an index in which the columns
  stay the transpose of the rows.
- `Marshal` (marshal.c): packing linked objects into one buffer, and unpacking them.
- `Downsample` (downsample.c): keeping n of m elements, evenly spread.
- `Common`: the option type, postings, and the rounding and width shared by the others.

Objects with fields that change are classes, algorithms on buffers work on arrays, and every method is
proved against a function or predicate about which the lemmas are stated. Scores and probabilities are
reals and the logarithm of the clustering scores is any function.

What the code does where one might expect something else:

- Hash table: `nht_delete` leaves the count alone and `nht_enter` takes the first tombstone it meets, so
  entering a key whose record lies behind a tombstone makes a second copy (`Nht.EnteredUnique` says
  exactly when), and deleting the key then brings the old value back (`Nht.StaleCopyResurfaces`).
  `Nht.StaleCopy` is such a run of five calls on a new table, for any two keys with the same first slot,
  and every hash has two such keys (`Nht.EveryHashCollides`).
  Runs without deletions are runs of a finite map.
- Growing a table from which something was deleted fails the assertion of `ht_extend`. Over any run that is
  the first growth after an erase of a key that the writes before it had left in the table, and before such
  an erase the table is the fold of the writes (`Nht.RunWithDeletions`).
- A hash table opened again is the same map. If its record store ends at an odd offset, a new record that
  skips a fragment gets an odd offset, which the tag bit of the rehash cannot carry and an assertion of
  `nht_enter` refuses (`Nht.RecordParity`); entering requires that this is not so.
- Id table: replacing an entry by one of another size first takes it off the count, so if the allocation
  then fails the entry is still there but not counted. The count stays the number of entries exactly if no
  replacement fails (`Nit.Nit.Enter` states by the inputs when one does), and the assertion of
  `nit_delete` fails exactly if as many replacements failed as there are entries; `Nit.LostCount` is such
  a run.
- Store: where fragments are a multiple of the alignment long, a block allocated behind a skipped fragment is
  aligned exactly if the mapped part ends aligned (`Nvmt.PlaceSound`), which a reopened store does not promise (`Nvmt.UnalignedReopenBreaksAlignment`).
- Boolean expressions: the grammar in the comment of bx.c has two operands for `&` and `|`; the code
  parses any number, and the model follows the code.
- Ranking: the result is ordered by descending weight and ascending id, but it is not always the beginning
  of all documents in that order. All places but the last are; the last place goes to the last of the
  documents of that weight if it comes behind all heavier ones, else to the regular one
  (`Ranking.Returned`). `Assv.RankingIsFirst` says exactly when that makes no difference, and
  `Assv.TieExample` is a search for which it does.
- Section files: `mkri` accepts exactly the files that consist of sections, but for a single section
  without text and padding, of ten bytes, which an assertion refuses (`SeekIdx.RefusedFile`); `nwam.c`
  writes none like it (`SeekIdx.WrittenIsWellFormed`).
- Marshalling: an object appended twice is unpacked twice, and pointers recorded for it are set in its
  first copy only; the second keeps the addresses of the sender (`Marshal.SharedObjectIsStale`). So the
  pointers of the result all lead to the copies of their targets exactly if no object with a recorded
  pointer was appended twice, but for targets that stay at their addresses (`Marshal.AllLeadIff`);
  `Marshal.SharedRun` is a packet in which one does not.
- Columns: the order check of `pass3` cannot fail, and neither can the checks of `del_vec` on the column
  of a term or the assertion of `ncs.c` on a cache line that stores the recomputed column.
- Updating an index fails exactly if the batch has more pairs than the pair fragments can take; the rows
  stored by then stay ahead of the columns (`Nwam.Rvst.Update`).

## Model

| member | source | states |
|---|---|---|
| Priq.RootIsLeast | priq.c:131-136 | the element at the top of a heap is no greater than any other |
| Priq.SiftDownStep | priq.h:127-161 | one turn of the downward sift moves the one place out of order to the child, and keeps what is above in order |
| Priq.SiftUpStep | priq.h:163-192 | one turn of the upward sift moves the one place out of order to the parent |
| Priq.Priq.PropF | priq.h:63-96 | sifting down from a place restores the heap below it and keeps the elements |
| Priq.Priq.PropB | priq.h:98-124 | sifting up restores the whole heap and keeps the elements |
| Priq.Priq.Enq | priq.c:110-129 | the queue is a heap again with exactly one element more |
| Priq.Priq.Top | priq.c:131-136 | the result is in the queue and no greater than anything in it |
| Priq.Priq.RplaTop | priq.c:160-171 | the top is exchanged for the new element and the queue is a heap |
| Priq.Priq.DeleteIndex | priq.c:173-194 | exactly the element at the index is gone and the queue is a heap; an index outside is refused |
| Priq.Priq.Deq | priq.c:138-158 | exactly the top is gone and the queue is a heap |
| KMerge.StartHeap | assv.c:323-341 | the heap holds the first item of every stream that is not empty, once |
| KMerge.Advance | assv.c:387-393 | after the top stream moved on, the heap again holds the front of every stream not used up; less remains to be read |
| Nvmt.AddressLocates | nvmt.h:59-68 | the quotient and remainder of an index are the place of that index in the fragments laid end to end |
| Nvmt.Store.Get | nvmt.h:59-68 | a read at any index below the end is the member of the flat sequence |
| Nvmt.Store.Set | nvmt.h:59-68 | a write changes that member of the flat sequence and no other |
| Nvmt.Store.Extend | nvmt.c:420-471 | the store ends at the new size, members below the old and new ends are kept, a read-only store is refused |
| Nvmt.Store.Alloc | nvmt.c:483-532 | a request is refused iff it is empty, too long for a fragment or aligned into the mapped part; else the block is at the first aligned place with room, or at the start of the fragment before that; the store reaches its end, and nothing before is lost |
| Nvmt.PlaceSound | nvmt.c:495-522 | a block lies at or after the request, behind the mapped part and inside one fragment; if fragments are a multiple of the alignment it is aligned iff no fragment was skipped or the mapped part ends aligned |
| Nvmt.PlaceLeast | nvmt.c:495-522 | no aligned place with room in its fragment lies between the request and the block |
| Nvmt.PlaceIs | nvmt.c:495-522 | when a request is refused, where its block lies and when that is aligned, without computing it |
| Nvmt.PlaceRefuses | nvmt.c:495-510 | behind the mapped part a request is refused iff no fragment can hold it |
| Nvmt.UnalignedReopenBreaksAlignment | nvmt.c:513-519 | a concrete request on a store with an unaligned mapped part gives an unaligned block |
| Nvmt.PlaceRunDisjoint | nvmt.c:483-532 | blocks of any run of requests, each from the end of the one before, are in increasing order and disjoint |
| Nvmt.Store.Writev | nvmt.c:372-418 | exactly the members between the two indices are appended, across fragment borders |
| Nvmt.Store.Close | nvmt.c:321-361 | the files laid end to end are the contents, all files but the last full and none empty |
| Nvmt.Open | nvmt.c:156-278 | opening succeeds iff the file sizes pass the checks, and then the contents are the files laid end to end; the alignment, the length of fragments and what a file may hold are those of the arguments |
| Nvmt.Pow2Sum | nvmt.c:157 | the alignments are the powers of two |
| Nvmt.OpenAlloc | nvmt.c:156-532 | a store opened with a shift of 2 on bytes whose number is a multiple of 4 gives blocks at multiples of 4, at the first place with room; a block is refused iff it is longer than a fragment of FULLWDFRGSZ bytes or an aligned offset is still in the files |
| Nvmt.FirstAligned | nvmt.c:495-497 | three bytes asked for at offset 5 of a new store are placed at 8 |
| Nvmt.Create | nvmt.c:263-361 | a new store of n members closes into the least number of files of MAPFRGSZ bytes that hold them |
| Nvmt.ShapeIsAccepted | nvmt.c:215-233 | files all full but the last pass the size checks of open |
| Nvmt.AcceptedIsShape | nvmt.c:215-233 | files that pass the size checks are all full but the last |
| Nvmt.Reopen | nvmt.c:296-361 | closing and opening again succeeds and gives the same member at every index |
| Nht.NsxIsProbing | nht.c:516-554 | every slot of every table size up to 2^32 is probed within the number of hash tables plus twice the size |
| Nht.ProbeReaches | nht.c:516-554 | a probe that hits the given slot, through the linear tail and its wrap at 2^32 |
| Nht.ProbeLaws | nht.c:516-543 | each of the first probes goes by its own table, with the probe number added; behind them each probe hits the slot after the one before |
| Nht.ThresholdIs | nht.c:121-121 | the threshold is six sevenths of the size, in whole sixes |
| Nht.EnteredView | nht.c:236-261 | a record put at the first free slot or tombstone of its key leaves a sound table whose map has the key updated |
| Nht.EnteredUnique | nht.c:236-261 | keys stay unique iff the key had no record before |
| Nht.UpdatedView | nht.c:217-261 | overwriting the payload where the key is found updates the map at that key only |
| Nht.DeletedView | nht.c:313-346 | a tombstone removes the key unless there is a second copy, and every other key is still found with its payload |
| Nht.StaleCopyResurfaces | nht.c:236-261 | entering behind a tombstone and deleting again leaves the key present |
| Nht.StaleCopy | nht.c:217-346 | for any two keys with the same first slot: entering both, deleting the first, entering and deleting the second all succeed and leave the second in the table with its old value |
| Nht.EveryHashCollides | nht.c:516-554 | for every hash some two keys have the same first slot in the smallest table |
| Nht.Untag | nht.c:409-417 | taking the tag off a cell keeps all records and leaves every other placed entry reachable through placed entries |
| Nht.PlaceAt | nht.c:418-445 | exchanging the entry with the empty or tagged slot its probing found settles it and unsettles none |
| Nht.RehashDone | nht.c:388-461 | with no tag left the table at the new size is sound, keeps unique keys, has exactly the same records in its cells and stands for the same map |
| Nht.Nht.TagAll | nht.c:388-400 | cells are emptied or tagged as they were tombstones or entries, and the count is that of the entries |
| Nht.Nht.FindSlot | nht.c:420-445 | the probing ends, at a slot the entry can be placed at, or at the entry itself; a tagged slot lies behind the cell, as the source asserts |
| Nht.Nht.PlaceEntry | nht.c:412-456 | one round places one entry: one tag less, the same number of used cells, all placed entries reachable |
| Nht.Nht.PlaceAll | nht.c:409-461 | the outer loop ends with no tag left and as many placements as there were tags |
| Nht.Nht.Extend | nht.c:355-464 | the same records in the cells and the same map at the larger size, below the threshold again |
| Nht.Nht.Retrieve | nht.c:265-292 | the payload the map has for the key, or none |
| Nht.Nht.Enter | nht.c:217-261 | the map is updated at the key, growing the table on the way if need be; what is written, and at which probe; NULL if read-only or if a new record fits no fragment, and without deletions only then; the count and the live entries stay apart by the same number |
| Nht.Nht.Delete | nht.c:313-346 | -1 and no change for an absent key; else the record found turns into a tombstone, every other key is kept, the key is gone iff it had no second copy, and one entry less is live |
| Nht.Nht.NewRecord | nht.c:236-261 | a new record lies behind all others at an even offset above the tombstone mark |
| Nht.Run | nht.c:217-292 | any run of entering and retrieving from an empty table answers as a finite map, the last write winning |
| Nht.RunWithDeletions | nht.c:217-461 | over any run with deletions: what each step did to the map; the count is the number of live entries plus that of the deletions; nothing was deleted iff no erase hit a key left by the writes before it, and then the run ends with the fold of the writes; it stops only at a growth after a deletion, where the assertion fails |
| Nht.RecordParity | nht.c:236-249 | a record is at an even offset iff no fragment was skipped or the mapped part of the store ends evenly |
| Nht.LaidBehind | nht.c:243-246 | a record behind the others keeps all records apart, with their data, key and terminator |
| Nht.Nht.Reopened | nht.c:155-215 | a table opened again is the same map, with the same count |
| Nit.MapEntered | nht.c:655-672 | a new record for a cell updates the map at that id |
| Nit.MapOverwritten | nht.c:647-653 | overwriting a record of the same size in place updates the map at that id only |
| Nit.LaidOver | nht.c:646-655 | overwriting a record by one of its size keeps all records apart |
| Nit.Nit.Extend | nht.c:783-812 | the index reaches past the id, new cells are empty, the map is the same |
| Nit.Nit.Enter | nht.c:624-679 | the map is updated, or unchanged when refused; when it is refused; the count stays short by the failed replacements, and a right count stays right iff the replacement does not fail |
| Nit.CountStaysRight | nht.c:655-668 | what a replacement does to the count in 32 bits makes it wrong iff the replacement fails |
| Nit.Nit.Retrieve | nht.c:681-708 | the data of the id, or none |
| Nit.Nit.Delete | nht.c:742-774 | the entry and one of the count are gone; -1 and no change if there is none; the assertion fails iff the entry is there and as many replacements failed as there are entries |
| Nit.LostCount | nht.c:641-770 | an id entered and then replaced by what does not fit is still in the map but not counted, and deleting it fails the assertion |
| Nit.Nit.Seq | nht.c:711-740 | the entry with the least id from the cursor on |
| Nit.Entries | nht.c:711-781 | rewinding and stepping gives every entry once, by ascending id |
| NcsScore.Corpus.MeanOfUnion | ncs.c:592-605 | the blended column of two clusters is the frequency-weighted mean of the original columns of the union |
| NcsScore.Corpus.GainSymmetric | ncs.c:788-823 | the score of a pair does not depend on the order of the two clusters |
| NcsScore.Corpus.GainOfTwo | ncs.c:788-823 | the score of two single documents in frequencies, probabilities and logarithms |
| NcsForest.ListsJoin | ncs.c:825-834 | hanging one list behind another gives their concatenation, and every list that ended where the first did goes on with the second |
| NcsForest.MergedKeepsCluster | ncs.c:578-590 | after a merge the first ndocs nodes of every earlier cluster are still exactly its documents |
| NcsForest.MergedNewCluster | ncs.c:578-590 | the new cluster has the documents of both, its list begins with them, and its frequency is their sum |
| NcsForest.MergedPartition | ncs.c:658-667 | the live clusters still partition the documents |
| NcsForest.MergedOk | ncs.c:553-755 | a merge keeps the slots, lists, tree, partitions and the record of best pairs of all clusters |
| NcsForest.MergedListed | ncs.c:579-590 | a merge keeps the weights sums of those of the documents, a live cluster in the slot of its least document, and the list of the cluster heavier per document in front of the other, of equally heavy ones that in the lower slot |
| NcsForest.OpenCount | ncs.c:1151-1170 | before cluster t is built there are 2N - t open clusters |
| Ncs.Csg.InitSc2 | ncs.c:1006-1033 | every pair of documents has its score |
| Ncs.Csg.InitCache | ncs.c:418-425 | every cache line holds the true maximum of its row |
| Ncs.Csg.Sc1 | ncs.c:757-786 | the sum of logarithms over the list of the cluster, from scratch |
| Ncs.Csg.Sc2 | ncs.c:788-823 | the gain of joining two live clusters, from scratch |
| Ncs.Csg.UpdateCacheLine | ncs.c:1481-1519 | the line holds the maximum over the live columns to the right, its place and their number |
| Ncs.Csg.Argmax | ncs.c:522-545 | a live pair with the maximum score over all live pairs |
| Ncs.Csg.Nconc | ncs.c:825-834 | the walk to the end of the list ends, and only the end is relinked |
| Ncs.Csg.BlendColumns | ncs.c:592-605 | every row of the matrix is blended in the one column |
| Ncs.Csg.NewScores | ncs.c:592-664 | after the matrix half of a merge every live column is the weighted mean of its documents and has its own score |
| Ncs.Csg.ForgetColumn | ncs.c:669-686 | lines that pointed to the dead column are computed anew; all lines hold true maxima |
| Ncs.StoredColumn | ncs.c:712-730 | a line that has one candidate in the recomputed column keeps a true maximum when the new score is stored; the assertion on the number of candidates holds |
| Ncs.DeadColumn | ncs.c:669-686 | a line whose maximum is elsewhere stays right when a column dies although its number of candidates is not lowered |
| Ncs.MergedPairs | ncs.c:693-752 | recomputing one row and one column leaves every pair of live clusters with its score from scratch |
| Ncs.Csg.Merge | ncs.c:553-755 | one more cluster, of an open pair of greatest gain; columns, scores, lists, weights, the order of the lists and cache lines are right again |
| Ncs.Csg.Run | ncs.c:428-438 | after N - 1 merges there are 2N - 1 clusters and everything above still holds |
| Dendrogram.PartitionBefore | ncs.c:1151-1170 | at every time of the run the open clusters partitioned the documents |
| Dendrogram.AncestorsAreLater | ncs.c:1151-1170 | a cluster is built later than everything below it |
| Dendrogram.OpenIsCut | ncs.c:1151-1170 | the clusters open at a time are none the ancestor of another, and split the documents |
| Dendrogram.Cut | ncs.c:1151-1170 | exactly the requested number of subtrees is collected, they are a cut, and they are the clusters that were open before the last merges |
| Dendrogram.Ejedoc | ncs.c:1221-1249 | the documents of the cluster, read off the first ndocs nodes of its list |
| Dendrogram.Cluster | ncs.c:278-346 | clustering gives exactly the requested number of groups: the documents of the clusters of a cut through the tree of a full run in which every merge had the greatest gain, each in the order of the lists, in which of two clusters merged the one heavier per document comes first, of equally heavy ones the one in the lower slot |
| Fss.FirstsOk | fss.c:968-982 | the first of every run of equal ids keeps every id once |
| Fss.UniqQq | fss.c:968-982 | the array is compacted in place to the first of every run |
| Fss.KeepOk | fss.c:984-1105 | what is kept are the ids of one list that are, or are not, in the other |
| Fss.JoinQq | fss.c:984-1105 | the intersection, or the difference when one side is negated |
| Fss.UnionOfOk | fss.c:1107-1185 | the merged list has exactly the ids of both, once and sorted |
| Fss.UnionQq | fss.c:1107-1185 | the two-index loop computes that union |
| Fss.EvalConj | fss.c:837-881 | a conjunction is answered by a positive set, or by the complement of one iff all its patterns are negated |
| Fss.SatLaws | fss.c:854-911 | what satisfying a query means over its hits: one pattern, negated or not, patterns together, and alternatives |
| Fss.SourceStep | fss.c:868-892 | the element kept for an id is the first hit of the first positive pattern, or, if all are negated, of the first that has it |
| Fss.PositiveStep | fss.c:894-906 | of several conjunctions the element is that of the first the document satisfies |
| Fss.Xfss | fss.c:831-918 | the ids of P are those a conjunction with a positive pattern accepts, those of N those no wholly negated one accepts, and each is absent if there is none such; every element is the first hit of its id for the pattern it comes from; all are counted, and the number returned is the least of the limit and that, the first of them having the least ids; accepting by P or by not being in N is satisfying the query |
| Fss.Arts2IdVec | fss.c:950-966 | a sorted id vector with the ids of the list, none for an absent list |
| Fss.Masks.Test | assv.c:725-758 | asked for increasing ids, the moving cursors answer whether the id is in P, or N is there and the id is not in it |
| Fss.FssMasks | assv.c:197-228 | the masks made from the query let exactly the documents through that satisfy it |
| Fss.FilterDocs | assv.c:725-758 | over a whole run of increasing ids every answer is whether the document satisfies the query |
| SeekIdx.BitAfter | mkri.c:361-371 | setting the bit of a frame sets no other |
| SeekIdx.SectionsUnique | mkri.c:300-490 | a file can be read as sections in one way only |
| SeekIdx.WrittenIsWellFormed | nwam.c:3514-3547 | the segments written for any texts are a well-formed file with a section for each, and not of the size the scan refuses |
| SeekIdx.ScanSection | mkri.c:300-489 | a turn of the scan finds the section with its padding iff there is one |
| SeekIdx.Passes | mkri.c:247-490 | the scan accepts exactly the files that consist of sections, but for a single one without text and padding; it marks the frames with a section header and no other, and lists every leading text byte in order |
| SeekIdx.EntriesAreChars | mkri.c:428-452 | the index of any texts written lists exactly the first bytes of their characters |
| SeekIdx.RefusedFile | mkri.c:286-289 | ten bytes of which the last two are zero are a well-formed file, the one the scan refuses |
| SeekIdx.ScanBackFinds | fss.c:590-658 | from a text byte, going back byte by byte meets the marker of its section first |
| SeekIdx.WalkBitmap | fss.c:625-640 | skipping clear bits and zero bytes stops at the frame of the header and never runs below the bitmap |
| SeekIdx.Seek | fss.c:590-658 | the bitmap-guided search gives the header and displacement of the section the byte lies in |
| SeekIdx.SeekText | fss.c:590-658 | for every byte of text of every well-formed file, the search with the bitmap the scan built gives the header and displacement of its section |
| SeekIdx.SeekEntries | fss.c:590-658 | for every file the scan accepts, the search finds the section of every position the index lists |
| SeekIdx.FwputsSection | nwam.c:5525-5551 | the 32-bit writer leaves behind every character its distance from the marker |
| SeekIdx.Seek32 | fss.c:569-588 | the 32-bit search gives the same section and displacement from those distances |
| SeekIdx.FindWritten | fss.c:569-588 | for every character of every text written, the 32-bit search finds the header and the place in the text |
| Assv.ComparsAreOrders | assv.c:761-816 | both comparisons are total orders up to equality |
| Assv.NoneBetween | assv.c:349-394 | no id lies between the group read last and the heads still to come |
| Assv.GroupComplete | assv.c:354-377 | when all heads are behind the id, the group is exactly the lists the id occurs in |
| Assv.DocIsMade | assv.c:552-594 | a document is made from exactly the postings of its id |
| Ranking.BestOfReplace | assv.c:638-665 | exchanging the worst for a document of at least its weight leaves in the heap what is to be returned of the documents counted |
| Ranking.BestOfDrop | assv.c:638-665 | so does dropping a document lighter than the worst |
| Ranking.BestOfEnq | assv.c:656-663 | and adding one while there is room |
| Ranking.WorstIsLast | assv.c:643-645 | the top of the full heap holds the last place |
| Ranking.FirstReturned | assv.c:638-665 | what is returned is the beginning of the documents by weight and id iff the cut is clean: no more than nd weigh as much as the one at place nd, or a heavier one has a larger id than all of that weight |
| Ranking.DistinctWeights | assv.c:638-665 | with distinct weights the cut is clean |
| Assv.UpdateQ | assv.c:638-665 | the bounded heap holds what is to be returned of all documents counted |
| Assv.Search.Tests | assv.c:522-539 | a document passes iff it was found by the query proper, the boolean filter is true of it and the masks let it through |
| Assv.Search.Weigh | assv.c:541-594 | the document with the weight, frequency and count summed over the hits of the query proper, the weight divided by the norm |
| Assv.DocIsWeighed | assv.c:552-594 | frequency, count and weight of a document as sums over the query terms whose vector has it; the sum of the parts is the norm times what the weight is made from, if there is a norm |
| Assv.RankingWeighed | assv.c:425-447 | every document returned is weighed so |
| Assv.Search.Eject | assv.c:497-636 | a passing document is counted once and offered to the heap, another is not |
| Assv.Search.Merge | assv.c:349-415 | every id in a list is dealt with once in increasing order; the documents counted are exactly those that pass |
| Assv.Drain | assv.c:425-447 | the heap is emptied into a list sorted with the best first |
| Assv.RankingOk | assv.c:425-447 | the result is what the heap keeps of the documents found, in order |
| Assv.RankingUnique | assv.c:319-447 | the answer to a search is determined, the ties at the cut included |
| Assv.RankingBest | assv.c:425-447 | as many of the documents as asked for, heaviest first, equal weights by id, and none left out weighs more than one of them |
| Assv.TotalIsCount | assv.c:349-423 | the total is the number of documents that satisfy the query |
| Assv.RankingIsFirst | assv.c:638-665 | the result is the first nd of all documents by weight and id iff the cut is clean |
| Assv.TieExample | assv.c:638-665 | of three documents of one weight a search for two gives the first and the last |
| Assv.BoolMeans | assv.c:712-723 | the compiled filter over the lists of a search is true iff the expression over terms is true of the document |
| Assv.BoolLaws | bxutil.c:107-186 | parentheses, and, or and not around any expressions mean what they say of a document |
| Assv.AtomLaws | bxutil.c:107-186 | a term is true of the documents in its vector, `T` of all and `F` of none |
| Assv.Precedence | bx.c:193-291 | not binds tighter than and, and that tighter than or |
| Assv.SoughtInTerms | assv.c:253-288 | a document is sought if it is in the vector of some query term, its own or that of its id, and passes the filters |
| Assv.ZeroTerm | assv.c:248-293 | a term with id 0 in the expression makes a query term with neither id nor vector |
| Assv.DocForQuery | assv.c:552-569 | lists added for the filter contribute nothing to a document |
| Assv.Assv | assv.c:92-491 | a search is refused iff nothing is asked for, a term is malformed or the filter is; else it gives the ranking of exactly the documents sought by query, filter and full-text query, each with its sums over the query and the weight made from them |
| Bx.ParseASound | bx.c:193-322 | what the parser accepts is the token string of the tree it returns |
| Bx.ParseAComplete | bx.c:193-322 | the parser finds the tree of every grammatical token string |
| Bx.ConvA | bx.c:193-225 | the loop over `or` operands computes the parse |
| Bx.ConvM | bx.c:227-259 | the loop over `and` operands computes the parse |
| Bx.Compile | bx.c:119-146 | compiling succeeds iff the tokens between the end marks are an expression, with that tree |
| Bx.EvalA | bx.c:160-191 | evaluation gives 1 or 0 as the expression is true or not |
| Bx.OrLaw | bx.c:164-190 | an or of any two expressions is true iff one of them is |
| Bx.AndLaw | bx.c:167-188 | an and of any two conjunctions is true iff both are |
| Bx.NotLaw | bx.c:183-185 | a negated factor is true iff the factor is not |
| Bx.ParenLaw | bx.c:174-176 | an expression in parentheses has its value |
| Bx.AtomLaw | bx.c:177-179 | a variable is true iff its cell is, and the constants are |
| Bx.ParenLaws | bx.c:160-191 | the values of the and, the or and the negation of any two expressions in parentheses |
| Bx.Forms | bx.c:52-75 | the strings that are expressions, conjunctions and factors, level by level |
| Bx.Exec | bx.c:119-191 | compiling and evaluating a string gives its value iff it is an expression |
| Bxutil.ConvTokens | bxutil.c:107-186 | one token for every element, equal ids sharing one variable, new variables only for terms of the expression |
| Bxutil.Conv | bxutil.c:73-212 | the filter is built iff the expression is grammatical, and renamed to ids it is the expression meant |
| Bxutil.Eval | bxutil.c:224-238 | the truth of the filter with exactly the variables of the hits set |
| Bxutil.FilterMeans | bxutil.c:126-179 | the filter has the truth of the meant expression under occurrence of terms |
| Bx.SameToks | bx.c:193-322 | the grammar is unambiguous |
| NwamVec.CanonicalUnique | nwam.c:5119-5141 | a vector with ascending ids and no zeros is determined by its frequencies |
| NwamVec.MergedFreq | nwam.c:5056-5117 | merging adds the frequencies of every id and the totals |
| NwamVec.MergedSorted | nwam.c:5056-5117 | merging sorted vectors gives a sorted one |
| NwamVec.XrVec.MergeBack | nwam.c:5086-5108 | going from the back, what has not been moved is still in place and what is behind is final |
| NwamVec.XrVec.MergeVec | nwam.c:5056-5117 | the vector in place becomes the merge of both, with the sum of the totals |
| NwamVec.CompactStep | nwam.c:5124-5137 | adding up one run of equal ids keeps what was added up canonical and complete |
| NwamVec.XrVec.UniqVec | nwam.c:5119-5141 | equal ids are added up in place and zeros dropped; every frequency and the total are kept, so the assertion on the total holds |
| NwamVec.FilterFreq | nwam.c:2251-2264 | filtering keeps the frequencies of the ids kept and no other |
| NwamVec.NodesShare | nwam.c:2243-2264 | over all nodes of a distributed index every frequency is kept exactly once |
| NwamVec.XrVec.ReduceVec | nwam.c:2251-2264 | the vector is compacted in place to the ids of the node |
| NwamVec.XrVec.MaskVec | nwam.c:5284-5314 | the vector is compacted in place to the ids the masks let through, with their total |
| Nwam.ColumnsUnique | nwam.c:2111-2165 | the columns are determined by the rows, but for empty ones |
| Nwam.PairPermuted | nwam.c:4933-4980 | sorting a file of pairs does not change what it says |
| Nwam.Rvst.P3EjectVec | nwam.c:2174-2241 | the column says afterwards what it said and what the group said, canonical and with its total; no other column changes |
| Nwam.Rvst.Step | nwam.c:2111-2160 | a turn of the loop keeps the group being read sorted by row id, so the check on the order never fails, and the columns right up to what has been read |
| Nwam.Rvst.Pass3 | nwam.c:2071-2173 | every column gets exactly the pairs of the files for it added |
| Nwam.Rvst.P2EjectPair | nwam.c:3569-3611 | the pair is put behind the others, in the last fragment with room or a new one; it fails iff all fragments are there and full, and then changes nothing |
| Nwam.Rvst.P2EjectVec | nwam.c:3362-3463 | iff there is room for the pairs of the row, it says what was given, canonical and with its total, and the fragments have got its pairs; else they are full |
| Nwam.Rvst.Update | nwam.c:1459-1527 | iff there is room for the pairs of the batch, the new rows are added and the columns are again the transpose of the rows; else the fragments are full with the first pairs, exactly the rows before the first one without room are added, and the columns are as before |
| Nwam.TermColumn | nwam.c:1896-1922 | the column of a term of a stored row has the row with the same frequency, so the checks of deletion hold |
| Nwam.Rvst.DelVec | nwam.c:1836-1959 | the row is gone and the columns are the transpose of the rest |
| Marshal.DecodeEncode | marshal.c:229-236 | a stored pointer is read back |
| Marshal.Mar.CopyIn | marshal.c:122-152 | the object is appended behind the others, padded to four bytes, within the buffer |
| Marshal.Mar.AppendP | marshal.c:104-179 | the copy, its base entry and its relocation entry are recorded; it fails iff the base was never appended |
| Marshal.Mar.Finish | marshal.c:181-206 | the packet has all copies and as many relocation entries as objects but one |
| Marshal.RelocsFit | marshal.c:154-177 | the pointers to be set lie inside the buffer and do not overlap |
| Marshal.Unmar | marshal.c:216-237 | every pointer of the table is set and no other byte is changed |
| Marshal.PacketArrives | marshal.c:216-237 | at the receiver the copies are disjoint and aligned, recorded pointers lead to the copies of their targets, all other bytes are as sent |
| Marshal.TreeArrives | marshal.c:154-177 | if every object has an address of its own, the pointer in the copy of its owner leads to the copy of its target |
| Marshal.LeadsIff | marshal.c:154-237 | the pointer of a call in a copy of its object leads to the copy of its target iff that is the first copy, or the target stays at its address |
| Marshal.AllLeadIff | marshal.c:154-237 | all pointers in all copies lead to the copies of their targets iff that holds for each |
| Marshal.SharedRun | marshal.c:104-237 | an object with two members that point to one other: of the two copies of that one only the first has its pointer set |
| Marshal.SharedObjectIsStale | marshal.c:154-161 | all bytes of a second copy of an object are those of the sender |
| Marshal.Transfer | marshal.c:182-237 | finishing, sending and unpacking gives what the lemmas say |
| Downsample.HalfDownUnique | downsample.c:56-70 | there is one number that is n * x / nmemb with halves rounded down |
| Downsample.StateStep | downsample.c:60-70 | one turn of the loop keeps the error term and the number kept right |
| Downsample.Downsample | downsample.c:46-72 | exactly n elements are kept in order (all if n is larger), after x inputs n * x / nmemb of them with halves rounded down, each read before it is overwritten |

## Left out

- Nht.Nht: the index is a sequence in a field, not a store object, and returned records are values, so aliasing of record pointers is not captured; the CRC tables are one hash function per table number; statistics and `nht_seq` are not modelled.
- Nht.Nht.Reopened: cells and records come back as values; `Nvmt.Reopen` is the statement about the stores.
- Nht.Nht.Enter: that a new record gets an even offset is a precondition, as the source asserts it.
- Nht.Nht.Extend: that nothing was deleted and that the table stays within 2^32 cells are preconditions, as the source asserts the first and relies on the second.
- Nvmt.Store: fragments are sequences in fields; files are whole members, stale fragment files and failing I/O are not modelled; of the two sets of fragment sizes the smaller is used.
- Nvmt.Store.Alloc: a block is placed by its offsets; clearing it is not modelled.
- Nit.Nit: records are values; the count kept at offset 0 of the record store is only a field.
- Nit.Nit.Enter: that the index does not grow past 32 bits is a precondition, as the source asserts it.
- Ncs.Csg: two documents at least and positive frequencies are required; the initial matrix of `init_p` comes with the corpus; rounding is not modelled; of the ways to find the maximum only the row cache is.
- Ncs.Csg.Argmax: which of several best pairs is chosen is not stated.
- Dendrogram.Cluster: the final sort of the groups by their first document, the words of a cluster and the K-means variant are not modelled; a count outside 2 to N is not either.
- Fss.Xfss: the hits of a pattern are an input, as the pattern search over the text is not modelled; every conjunction has a pattern.
- SeekIdx.Passes: the three passes are one scan, and sorting the pointers is left out; a file that ends inside the padding is an error here.
- Assv.Assv: similarity functions are parameters; the cutoff and user tests, removal of similar names, debug data, the totals looked up for results and distributed roles are not modelled; vectors have positive ascending ids.
- Bx.EvalA: variables are 0 or 1.
- NwamVec.XrVec.ReduceVec: the sequential partition only.
- Nwam.Rvst: a single machine; names are ids already; sorting is a parameter with the contract of `qsort`; properties, full-text segments, document counts and maxima are not modelled.
- Nwam.Rvst.Update: the rows of a batch are new and distinct.
- Marshal.Mar.AppendP: that a member lies inside the object of its base and is recorded once is required of the caller; the first object is not empty.
- Downsample.Downsample: the integers are unbounded.
- Failing allocation, locks, signals, network, request handling, stemming and file plumbing are not modelled.
