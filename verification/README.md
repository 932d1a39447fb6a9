# Verification of the OpenFlow controller's core library

A model, in Dafny, of four components of the controller, and proofs about them.

* **Hash table** (`DoubleLink`, `BucketModel`, `Traversal`, `HashTable`, `HashIterator`). The chained table over
  doubly linked lists: lazily created bucket lists, the list that indexes the non-empty buckets, and the pointer from
  each bucket sentinel into that index, on one heap. Elements and entries carry a ghost bit `live` that `Free` may
  clear once, and methods read and write their fields only while it is set. The table stands for a finite map modulo
  the key comparison.
* **Codec** (`Bytes`, `OpenFlow`, `ByteOrder`, `FieldLaws`, `MsgCheck`, `MsgCreate`, `Walks`, `Agreement`, `Endings`,
  `MessageEndings`, `Acceptance`, `ErrorMaps`, `Verdicts`). Conversion between host and network order, message
  builders and message validators of OpenFlow 1.0.0, on bytes. A region is *tiled* by elements if it is exactly their
  concatenation and each is as long as its own length field says; actions, flow records, queues and queue properties
  all use that one notion. `Agreement` ties the three walks together; `Endings`, `MessageEndings` and `Acceptance` are
  about bytes that no builder wrote. `FieldLaws` says what every field is after a conversion, `Verdicts` which code
  every validator returns for which bytes.
* **Arithmetic kernels** (`Checksum`, `KeyHash`). The Internet checksum and FNV-1a, and the key functions that the hash
  table is created with.
* **Transaction ids** (`Xid`). The wrap-around generator.

How the model reads the source:

* The byte order of the host is a parameter; the network's is `Big`. A source structure is a sequence of bytes, a
  destination an array and an offset.
* 16- and 32-bit arithmetic wraps where the source's does (`Add16`, `Sub16`, `Add32`, the length of the table).
* A validator follows lengths without knowing where the message ends, so memory is a total function of which the message
  is a part. A loop that need not end is specified up to a number of rounds; the methods are proved for every number of
  rounds in which the loop ends, and `MoreRounds` says that the number does not matter.
* An operation of the hash table holds a recursive mutex throughout, so it is one step.
* `cc_create_header` (lib/cc_of_msg_create.c:50-77) declares `buf` and returns `buffer`; the model follows its purpose, a
  zeroed buffer of `length` bytes with the four header fields set. `get_actions_length` is the sum of the actions'
  lengths. `CC_SUCCESS` and `CC_ERROR` are not defined in the repository: a comparison function is a predicate, and
  messages are not NULL.
* `hton_` functions that include/cc_byte_order.h defines as their `ntoh_` counterparts are one method.

Where the code differs from what its comments promise, the model follows the code:

* `cc_generate_xid` (lib/cc_xid.c:33) looks up the first candidate again and again, so it returns 0 without looking it up when
  that candidate is in use, and stays at its greatest value once it gets there (`FreshWhen`, `StaleAlthoughFree`,
  `CounterSaturates`).
* `validate_actions` need not end: a vendor action may be so long that the 16-bit offset wraps back to one it has already
  visited. A flow-mod of 88 bytes is enough (`FlowModCircles`), and so are small packet-outs (`PacketOutCircles`) and flow
  statistics replies (`FlowStatsCircles`). On all bytes it ends only if there are at most 8 of them (`ActionsEnd`). On
  given bytes it ends exactly unless an offset recurs (`EndsUnlessRecurs`), so whenever none wraps (`EndsWithoutWrap`);
  with no vendor action it ends on all bytes up to 65520 of them (`EndsWithin`).
* The loop that counts the queues of a reply never ends at a queue of length 0 (`EmptyQueueCircles`, `QueueRepliesEnd`).
* What is accepted need not lie within its region: the last action or property may reach beyond it (`AcceptedActions`,
  `OverrunAccepted`), and the actions of a packet-out may lie beyond the message altogether (`OutsideAccepted`). The
  covering is unique (`CoverUnique`), and it tiles the region exactly if its last element ends where the region does
  (`AcceptedTiles`). So an accepted record or queue can be handed to its converter exactly then (`FlowConvertible`,
  `QueueConvertible`), and not always (`OverrunStatsAccepted`, `OverrunQueueAccepted`).
* `hton_queue_property` and `hton_packet_queue` copy their source and yet look at it again when part of the destination
  is written (lib/cc_byte_order.c:485, 551). In place, on a little-endian host, the one never converts a rate
  (`PropertyInPlace`), and the other takes the wrong length, unless its two bytes are the same (`QueueInPlace`).
* `get_checksum` keeps 32 bits of the sum. That is enough for all data of a length exactly up to 131074 bytes
  (`RightUpTo`); which sums it gets right beyond that is `ComputedRight`.
* The translation table has no entry for two errors of actions (`ActionsTranslated`, `MissingAreReached`).
* The comment on the iterator calls it invalid once it has returned NULL (lib/cc_hash_table.c:333-340); it goes on
  returning NULL (`IterateHashNext`).
* The converters of queue properties leave padding bytes as they find them, unlike those of all other structures
  (`NtohQueueProperty`, `QueueRoundTrip`).

`dafny verify dfyconfig.toml` checks everything.

## Model

| member | source | states |
|---|---|---|
| DoubleLink.LinkedDistinct | lib/cc_double_link.c:70-276 | Mutual next and prev pointers with NULL at both ends make a chain acyclic: no element occurs in it twice. |
| DoubleLink.CreateDlist | lib/cc_double_link.c:49-60 | A new list is a chain of one fresh element without data. |
| DoubleLink.InsertBefore | lib/cc_double_link.c:70-94 | From any element of a chain: the chain becomes the old sequence with one fresh element, holding the data, right before that element. |
| DoubleLink.InsertAfter | lib/cc_double_link.c:104-128 | The same, right after that element. |
| DoubleLink.GetFirstElement | lib/cc_double_link.c:137-152 | From any element, the first of the chain. |
| DoubleLink.GetLastElement | lib/cc_double_link.c:161-176 | From any element, the last of the chain. |
| DoubleLink.FindElement | lib/cc_double_link.c:186-211 | NULL exactly if no element of the whole chain holds the data; otherwise the nearest match at or after the element, and only failing that the nearest before it. |
| DoubleLink.DeleteDlistElement | lib/cc_double_link.c:222-242 | The chain becomes the old sequence without that element, which is freed (an element can be freed only while alive). |
| DoubleLink.DeleteDlist | lib/cc_double_link.c:251-276 | Every element of the chain is freed, once, whichever of them is handed in. |
| BucketModel.MapLaws | lib/cc_hash_table.c:130-180 | The map operations that the table is compared with are those of a finite map whose keys are the classes of compare: insertion determines every later lookup, keeps keys apart and changes the size by 0 or 1. |
| BucketModel.DeleteLaws | lib/cc_hash_table.c:226-268 | Deletion makes lookups of equal keys fail and leaves all others. |
| BucketModel.DeleteSize | lib/cc_hash_table.c:226-268 | Deletion changes the size by 1 exactly if an equal key was present. |
| BucketModel.LookupIs | lib/cc_hash_table.c:190-212 | A lookup answers the value bound to an equal key, NULL if no key is equal. |
| BucketModel.InsertIs | lib/cc_hash_table.c:144-180 | After an insertion the new key itself is bound to the new value; all other bindings are those whose keys are not equal to it, unchanged. |
| BucketModel.DeleteIs | lib/cc_hash_table.c:226-268 | After a deletion the bindings are those whose keys are not equal to the key, unchanged. |
| BucketModel.RunAnswers | lib/cc_hash_table.c:144-268 | In a run of operations, what one answers, told of the operations alone: the value of the last insertion of an equal key before it, NULL if an equal key was deleted later, and if there was neither what the map held at the start. |
| BucketModel.FindRefinesLookup | lib/cc_hash_table.c:190-212 | Searching only the bucket hash mod n, front to back, answers as a lookup in the map that all buckets together stand for. |
| BucketModel.WithoutRefinesDelete | lib/cc_hash_table.c:234-268 | Removing the first equal entry of its bucket deletes the key from the map and leaves no second equal one. |
| BucketModel.WithRefinesInsert | lib/cc_hash_table.c:168-176 | Putting an entry with a new key at the front of its bucket adds exactly that binding. |
| BucketModel.MapDeleteAllIs | lib/cc_hash_table.c:280-303 | Deleting keys one after another leaves exactly the bindings that compare equal to none of them. |
| Traversal.DeletionIsBehind | lib/cc_hash_table.c:280-303 | Deleting a key that the traversal has already passed, even if that destroys the current bucket and its index element, leaves everything ahead of the traversal where it was. |
| Traversal.LeftOver | lib/cc_hash_table.c:280-303 | All the deletions of a traversal leave exactly the bindings not equal to any key that the callback has asked for, at whichever call, by the position of an entry handed out until then, the one just handed out included. |
| Traversal.VisitDistinct | lib/cc_hash_table.c:280-303 | Visiting the buckets of the index in order meets no key twice. |
| HashTable.HashTable.constructor | lib/cc_hash_table.c:92-111 | A new table is valid and stands for the empty map; the key functions must be an equivalence and a hash that respects it, the size positive. |
| HashTable.HashTable.GetBucketIndex | lib/cc_hash_table.c:114-120 | The bucket number is hash mod the number of buckets, which is in range. |
| HashTable.HashTable.NewBucket | lib/cc_hash_table.c:123-127 | Bucket and index element are made together, the sentinel points at its own index element, no other bucket changes. |
| HashTable.HashTable.LookupHashEntry | lib/cc_hash_table.c:190-212 | The value bound to an equal key, NULL if no stored key compares equal. |
| HashTable.HashTable.DeleteBucket | lib/cc_hash_table.c:215-224 | The bucket leaves the index through its sentinel's pointer, its list is freed and its slot becomes NULL; every node that leaves the table is dead. |
| HashTable.HashTable.UnlinkAndTrim | lib/cc_hash_table.c:249-265 | Taking out an entry frees its list element and the entry, and destroys the bucket exactly if it was the only one. |
| HashTable.HashTable.DeleteHashEntry | lib/cc_hash_table.c:234-268 | The map loses exactly the class of the key, the old value is returned (NULL if absent), the table stays valid, and everything that leaves it is dead. |
| HashTable.HashTable.AttachNew | lib/cc_hash_table.c:168-176 | The bucket is created again if the deletion of the old entry destroyed it, and the entry goes right after the sentinel. |
| HashTable.HashTable.InsertHashEntry | lib/cc_hash_table.c:144-180 | The new key is bound to the value, in an entry of its own, in place of any equal key; all other bindings stay; the old value is returned (NULL if none), also when replacing a bucket's only entry destroys and re-creates that bucket; the table stays valid. |
| HashTable.HashTable.Shape | lib/cc_hash_table.c:92-268 | In every valid table: a bucket is non-NULL exactly if it holds an entry and exactly if the index lists it, once; every sentinel points at its own index node; every list element points at its entry, which is in bucket hash mod n; no two stored keys compare equal; live nodes number 1 + 2 * non-empty buckets + size. |
| HashTable.HashTable.OneEntryPerKey | lib/cc_hash_table.c:144-180 | Two entries of the table whose keys compare equal are the same entry. |
| HashTable.HashTable.MapOfEntries | lib/cc_hash_table.c:130-180 | The map that the table stands for is what its entries in memory say. |
| HashTable.HashTable.LengthIsSize | lib/cc_hash_table.c:175-255 | length is the size of the map, modulo 2^32. |
| HashTable.HashTable.Step | lib/cc_hash_table.c:144-268 | One operation of a run does to the map, and answers, what the specification says. |
| HashTable.HashTable.Run | lib/cc_hash_table.c:144-268 | Any run of insertions, lookups and deletions gives the results, and ends in the map, of the same run on a finite map modulo compare. |
| HashTable.HashTable.VisitOne | lib/cc_hash_table.c:295-299 | One round of the inner loop: the cursor has moved on before the callback runs, so whatever handed-out keys it deletes, the rest of the visit is as planned. |
| HashTable.HashTable.ForEachInBucket | lib/cc_hash_table.c:294-299 | All entries of one bucket are handed out in order although the callback may destroy that bucket. |
| HashTable.HashTable.ForEachHash | lib/cc_hash_table.c:280-303 | The callback gets exactly the entries present at the start, in index order, each once, whichever handed-out keys it has deleted at each call; the final map holds exactly the initial bindings not equal to a key it has asked for (`Kept`). |
| HashTable.HashTable.VisitsEachOnce | lib/cc_hash_table.c:280-303 | That visit contains each stored entry, and no key twice, and has as many entries as the map has keys. |
| HashTable.HashTable.FreeEntries | lib/cc_hash_table.c:390-395 | Every entry of the bucket is freed once, through list elements that stay. |
| HashTable.HashTable.DeleteHash | lib/cc_hash_table.c:376-407 | Every list node and every entry the table owned is freed, each exactly once. |
| HashIterator.Iterator.InitHashIterator | lib/cc_hash_table.c:314-330 | Whatever the iterator's fields held, all entries in index order are still to come. |
| HashIterator.Iterator.IterateHashNext | lib/cc_hash_table.c:341-368 | Hands out the first entry still to come and keeps the rest; NULL exactly when there is none, and for good. The loop ends because it moves to a later bucket or returns. |
| HashIterator.IterateAll | lib/cc_hash_table.c:305-368 | On an unmodified table, initialising and asking until NULL yields every stored entry exactly once, as many as the map has keys. |
| Bytes.TilingUnique | include/openflow.h:431-442 | The length fields alone determine the elements of a tiled region. |
| Bytes.TilesTail | include/openflow.h:431-442 | The first length field of a tiled region is the length of its first element, and the rest is tiled by the others. |
| OpenFlow.ConvTwice | lib/cc_byte_order.c:29-176 | For every structure, converting twice gives it back with its padding zeroed, on a host of either byte order. |
| OpenFlow.Converted16 | lib/cc_byte_order.c:29-176 | A converted 16-bit field reads in the other byte order what the field read before. |
| OpenFlow.Converted32 | lib/cc_byte_order.c:29-176 | The same for 32-bit fields. |
| ByteOrder.NtohMatch | lib/cc_byte_order.c:29-49 | Writes a match in the other byte order, padding zero, and no byte outside the structure. |
| ByteOrder.NtohActionOutput | lib/cc_byte_order.c:72-81 | Writes an output action in the other byte order, padding zero, and no byte outside the structure. |
| ByteOrder.NtohActionVlanVid | lib/cc_byte_order.c:84-93 | Writes a set-VLAN-id action in the other byte order, padding zero, and no byte outside the structure. |
| ByteOrder.NtohActionVlanPcp | lib/cc_byte_order.c:96-105 | Writes a set-VLAN-priority action in the other byte order, padding zero, and no byte outside the structure. |
| ByteOrder.NtohActionStripVlan | lib/cc_byte_order.c:108-116 | Writes a strip-VLAN action in the other byte order, padding zero, and no byte outside the structure. |
| ByteOrder.NtohActionDlAddr | lib/cc_byte_order.c:119-128 | Writes a set-Ethernet-address action in the other byte order, padding zero, and no byte outside the structure. |
| ByteOrder.NtohActionNwAddr | lib/cc_byte_order.c:131-139 | Writes a set-IP-address action in the other byte order, padding zero, and no byte outside the structure. |
| ByteOrder.NtohActionNwTos | lib/cc_byte_order.c:142-151 | Writes a set-TOS action in the other byte order, padding zero, and no byte outside the structure. |
| ByteOrder.NtohActionTpPort | lib/cc_byte_order.c:154-163 | Writes a set-transport-port action in the other byte order, padding zero, and no byte outside the structure. |
| ByteOrder.NtohActionEnqueue | lib/cc_byte_order.c:166-176 | Writes an enqueue action in the other byte order, padding zero, and no byte outside the structure. |
| ByteOrder.CopyActionVendorBody | lib/cc_byte_order.c:179-189 | Copies exactly the bytes that follow the header. |
| ByteOrder.ActionVendor | lib/cc_byte_order.c:192-213 | Converts the vendor header and copies the body as it is. |
| ByteOrder.NtohAction | lib/cc_byte_order.c:216-259 | The action in host order, by the type read in network order; an undefined type changes nothing. |
| ByteOrder.HtonAction | lib/cc_byte_order.c:262-305 | The action in network order, by the type read in host order. |
| ByteOrder.ActionRoundTrip | lib/cc_byte_order.c:216-305 | Either conversion keeps type and length, and the other one gives the action back with its padding zeroed; vendor bodies included. |
| ByteOrder.NtohFlowStats | lib/cc_byte_order.c:308-343 | Of a record tiled by known actions: the record in host order, although dst may alias src, and no byte at or past length changes. |
| ByteOrder.HtonFlowStats | lib/cc_byte_order.c:346-381 | The same towards network order. |
| ByteOrder.FlowRoundTrip | lib/cc_byte_order.c:308-381 | hton_flow_stats then ntoh_flow_stats gives back the record with its padding zeroed, and so does the reverse composition. |
| FieldLaws.MatchKept | lib/cc_byte_order.c:29-49 | Every field of a match has the same value in the other byte order: the ports, the VLAN id, the types and the IP addresses as numbers, Ethernet addresses and single bytes as they are, padding zero. |
| FieldLaws.ActionFieldsKept | lib/cc_byte_order.c:72-305 | A converted action has, by its type: type and length, and port and max_len, VLAN id, VLAN priority, Ethernet or IP address, TOS, transport port, queue id, or vendor and body with the same values, and zero padding. |
| FieldLaws.RecordFieldsKept | lib/cc_byte_order.c:308-381 | A converted flow record has the same length, table, match, duration, priority, timeouts, cookie and counters, 64-bit ones as numbers of 64 bits, and zero padding. |
| ByteOrder.NtohQueueProperty | lib/cc_byte_order.c:448-469 | The property's fields in host order; its padding stays what the destination held. |
| ByteOrder.HtonQueueProperty | lib/cc_byte_order.c:472-493 | The property over what the destination held, in network order, on any two destinations and sources, which may overlap; whether the rate is converted depends on the type that src shows after the type and the length of dst have been written. |
| FieldLaws.PropertyFieldsKept | lib/cc_byte_order.c:448-493 | A converted property has the same type, length and rate; all its other bytes are those of the destination. |
| ByteOrder.TypeTakenRight | lib/cc_byte_order.c:480-485 | That is the type of the property if dst is other memory or does not reach the type. |
| ByteOrder.PropertyInPlace | lib/cc_byte_order.c:479-490 | In place it is the type in network order, so a property of a known type is converted as it should exactly if the host's byte order is the network's or there is no rate. |
| ByteOrder.NtohPacketQueue | lib/cc_byte_order.c:496-528 | Of a queue tiled by properties: fixed part and every property in host order, also if dst aliases src, and no byte at or past len changes. |
| FieldLaws.QueueHeadKept | lib/cc_byte_order.c:496-563 | A converted queue has the same id and length, and zero padding. |
| ByteOrder.HtonPacketQueue | lib/cc_byte_order.c:531-563 | The same towards network order, on memory where src still shows its length after the fixed part of dst has been written. |
| ByteOrder.LengthTakenRight | lib/cc_byte_order.c:539-551 | It does if dst is other memory, or the fixed part of dst does not reach the length. |
| ByteOrder.QueueInPlace | lib/cc_byte_order.c:539-560 | In place it shows the length in network order, so the loop converts all properties and stops there exactly if the host's byte order is the network's or the two bytes of the length are the same. |
| ByteOrder.QueueRoundTrip | lib/cc_byte_order.c:496-563 | hton_packet_queue then ntoh_packet_queue, and the reverse, give the queue back byte for byte, with the padding of its fixed part zeroed and the padding of its properties as the second destination held it; in between it is a queue tiled by properties of the same lengths with the same id, types and rates. |
| ByteOrder.RestoredIsSame | lib/cc_byte_order.c:496-563 | What comes back has the same id and length and is tiled by properties with the same lengths, types and rates. |
| MsgCheck.HeaderPasses | lib/cc_of_msg_check.c:23-62 | validate_header returns 0 exactly if version, type and length field fit the type, the buffer and the bounds. |
| MsgCheck.MatchAccepted | lib/cc_of_msg_check.c:349-414 | validate_match returns 0 exactly if wildcards, VLAN id, VLAN priority and TOS are within their ranges. |
| MsgCheck.ActionAccepted | lib/cc_of_msg_check.c:1480-1827 | validate_action returns 0 exactly if the type is known, the length is that of the structure its converter converts, and its fields are in range. |
| MsgCheck.PropertyAccepted | lib/cc_of_msg_check.c:1323-1353 | validate_queue_property returns 0 exactly for the two known types with their lengths. |
| MsgCheck.ValidateActions | lib/cc_of_msg_check.c:1521-1539 | The loop returns what the walk from offset 0 computes, with the 16-bit offset of the source. |
| MsgCheck.ValidateQueueProperties | lib/cc_of_msg_check.c:1356-1375 | The same for queue properties. |
| MsgCheck.MoreRounds | lib/cc_of_msg_check.c:1521-1539 | What a walk returns does not depend on how many rounds it is granted. |
| MsgCheck.ValidateFlowStatsReply | lib/cc_of_msg_check.c:944-1015 | The loop over flow records, with its 16-bit counter, returns what the specification of the walk computes. |
| MsgCheck.ValidatePacketQueues | lib/cc_of_msg_check.c:1378-1425 | The loop over n queues returns the first failure of a queue, or 0. |
| MsgCheck.ValidateQueueGetConfigReply | lib/cc_of_msg_check.c:1428-1477 | Header, port, counting loop and validating loop return what the specification computes. |
| Walks.FirstFailureIs | lib/cc_of_msg_check.c:1521-1539 | The first failure is 0 exactly if no element fails; otherwise it is the code of an element before which none fails. |
| Walks.StartsAre | lib/cc_of_msg_check.c:1521-1539 | Tiles start at the sums of the lengths before them. |
| Walks.TiledWalk | lib/cc_of_msg_check.c:1521-1539 | On a tiled region a walk ends after as many rounds as there are tiles and returns the first failure; the 16-bit offsets it visits are the starts of the tiles up to that one, as unbounded sums, so they never wrap. |
| Walks.TiledActions | lib/cc_of_msg_check.c:1521-1539 | On every region tiled by actions of length at least 8, validate_actions returns 0 exactly if every action is valid, and otherwise the code of the first that is not; it visits exactly the tiles up to that one. |
| Walks.TiledProperties | lib/cc_of_msg_check.c:1356-1375 | The same for regions tiled by queue properties. |
| Endings.EndsUnlessRecurs | lib/cc_of_msg_check.c:1521-1539 | On given bytes a walk over length bytes ends exactly if it ends within length rounds, and exactly if none of the first length + 1 offsets that it visits recurs. |
| Endings.RecursNeverEnds | lib/cc_of_msg_check.c:1521-1539 | A walk that comes back to an offset is still running after any number of rounds. |
| Endings.EndsWithoutWrap | lib/cc_of_msg_check.c:1521-1539 | A walk none of whose visited elements reaches beyond offset 65535 ends within ceil(length / 8) rounds. |
| Endings.EndsInTime | lib/cc_of_msg_check.c:1521-1539 | On arbitrary bytes, up to 65520 of them, on which what passes is 8 or 16 bytes long, every visited offset is a multiple of 8, none wraps, and the walk ends within ceil(length / 8) rounds. |
| Endings.NeverEnds | lib/cc_of_msg_check.c:1521-1539 | Beyond 65520 bytes elements of 16 bytes each make the offset wrap to 0, and the walk never ends. |
| Endings.EndsWithin | lib/cc_of_msg_check.c:1521-1539 | With no vendor action validate_actions ends on all bytes, and within ceil(length / 8) rounds, exactly if length is at most 65520. |
| Endings.PropertiesEndWithin | lib/cc_of_msg_check.c:1356-1375 | validate_queue_properties ends on all bytes, and within ceil(length / 8) rounds, exactly if length is at most 65520. |
| Endings.DoneIsStraight | lib/cc_of_msg_check.c:1356-1375 | Over elements of 8 or 16 bytes the offset can wrap only to 0, so a walk over up to 65528 bytes of them that ends has never wrapped. |
| Endings.CircleNeverEnds | lib/cc_of_msg_check.c:1521-1539 | Wherever 8 bytes of an action that strips the VLAN are followed by a vendor action of length 65528, validate_actions never ends on more than 8 bytes. |
| Endings.ActionsEnd | lib/cc_of_msg_check.c:1521-1539 | With vendor actions allowed, validate_actions ends on all bytes exactly if length is at most 8. |
| Endings.AcceptedMeans | lib/cc_of_msg_check.c:1521-1539 | A walk accepts without wrapping exactly if elements that pass lie one after another from the start of the region, as many as it takes to cover it; only the last may reach beyond its end. |
| Endings.AcceptedActions | lib/cc_of_msg_check.c:1356-1539 | The same of validate_actions with valid actions, and of validate_queue_properties with valid properties. |
| Endings.CoverUnique | lib/cc_of_msg_check.c:1356-1539 | Only one list of elements covers a region. |
| Endings.AcceptedTiles | lib/cc_of_msg_check.c:1356-1539 | Elements that cover a region tile it exactly if together they are as long as it, which is when the offset leaves the loop exactly at length; and nothing else tiles it. |
| MessageEndings.FlowModCircles | lib/cc_of_msg_check.c:527-592 | A flow-mod of any length above 80 bytes, in order but for a vendor action, on which validate_flow_mod never ends; from 88 bytes on it lies wholly within its buffer. |
| MessageEndings.FlowModsEnd | lib/cc_of_msg_check.c:527-592 | validate_flow_mod ends on every message of a given length exactly if that is at most 80 bytes. |
| MessageEndings.OverrunAccepted | lib/cc_of_msg_check.c:527-592 | An 80-byte flow-mod is accepted although its only action is 16 bytes long and starts at byte 72. |
| MessageEndings.PacketOutCircles | lib/cc_of_msg_check.c:487-524 | A packet-out, in order but for a vendor action, on which validate_packet_out never ends. |
| MessageEndings.PacketOutsEnd | lib/cc_of_msg_check.c:487-524 | validate_packet_out ends on every message with a given length of actions, all of them within it, exactly if those are at most 8 bytes. |
| MessageEndings.SettledInTime | lib/cc_of_msg_check.c:487-592 | Whether the two end on a message is settled after 65535 rounds. |
| MessageEndings.FlowStatsRepliesEnd | lib/cc_of_msg_check.c:944-1015 | validate_flow_stats_reply ends on every message of a given length exactly if that leaves no room for a record. |
| MessageEndings.FlowWalkEnds | lib/cc_of_msg_check.c:970-1011 | On arbitrary bytes the loop over records stops at the first one at which 0 is left, modulo 65536, or which does not pass, and returns what that says; if there is none it runs on. |
| MessageEndings.CountEnds | lib/cc_of_msg_check.c:1458-1463 | On arbitrary bytes the counting loop ends at the first queue at which at most 8 bytes are left, modulo 65536, with that many queues counted; if there is none it runs on. |
| MessageEndings.EmptyQueueCircles | lib/cc_of_msg_check.c:1458-1463 | At a queue of length 0 with more than 8 bytes left the counting loop never ends. |
| MessageEndings.QueueRepliesEnd | lib/cc_of_msg_check.c:1428-1477 | validate_queue_get_config_reply ends on every message of a given length exactly if that is at most 24 bytes. |
| Acceptance.ActionsTile | lib/cc_of_msg_check.c:1521-1539 | The valid actions that cover a region are unique and tile it exactly if the last of them does not reach beyond it. |
| Acceptance.FlowModFieldsMean | lib/cc_of_msg_check.c:545-577 | The fields of any flow-mod pass exactly if match, command and flags are in range, an exact match has the highest priority, and a deletion names a valid port or none. |
| Acceptance.FlowModMeans | lib/cc_of_msg_check.c:527-592 | Any flow-mod, built or not, is accepted without the offset of its actions wrapping exactly if its header and fields are valid and valid actions cover what follows them. |
| Acceptance.PacketOutMeans | lib/cc_of_msg_check.c:487-524 | Any packet-out, built or not, is accepted without the offset of its actions wrapping exactly if its header and port are valid and valid actions cover as many bytes as it says its actions have. |
| Acceptance.OutsideAccepted | lib/cc_of_msg_check.c:487-524 | A 16-byte packet-out that says it has 8 bytes of actions is accepted. |
| Acceptance.PacketQueueMeans | lib/cc_of_msg_check.c:1378-1403 | validate_packet_queue accepts, whatever the length, exactly if the queue is at least 16 bytes long and valid properties cover what follows its fixed part. |
| Acceptance.QueueReplyMeans | lib/cc_of_msg_check.c:1428-1477 | Any reply, built or not, is accepted without the counting loop stepping over its end exactly if header and port are valid and it is tiled by queues that valid properties cover. |
| Acceptance.FlowCodeMeans | lib/cc_of_msg_check.c:959-1008 | One round of the loop over records passes exactly if match and priority are valid and the walk over the actions accepts. |
| Acceptance.FlowStatsReplyMeans | lib/cc_of_msg_check.c:944-1015 | Any reply, built or not, is accepted without a 16-bit counter wrapping exactly if header and flags are valid and it is tiled by records with valid matches and priorities that valid actions cover. |
| Acceptance.FlowConvertible | lib/cc_byte_order.c:308-343 | A record that valid actions cover is one that ntoh_flow_stats can convert, in one way only, exactly if its last action does not reach beyond it. |
| Acceptance.QueueConvertible | lib/cc_byte_order.c:496-528 | The same of a queue, its properties and ntoh_packet_queue. |
| Acceptance.OverrunStatsAccepted | lib/cc_of_msg_check.c:944-1015 | A reply is accepted whose only record ntoh_flow_stats cannot convert. |
| Acceptance.OverrunQueueAccepted | lib/cc_of_msg_check.c:1428-1477 | A reply is accepted whose only queue ntoh_packet_queue cannot convert. |
| MsgCreate.CreateHeader | lib/cc_of_msg_create.c:50-77 | A zeroed buffer of exactly length bytes with version, type, length and transaction id set. |
| MsgCreate.TotalLength | lib/cc_of_msg_create.c:840-846 | The 16-bit sum of the length fields is the length of the concatenated elements. |
| MsgCreate.PutActions | lib/cc_of_msg_create.c:457-468 | The actions of the list follow one another in network order. |
| MsgCreate.CreatePacketOut | lib/cc_of_msg_create.c:410-477 | Refuses exactly a frame that is missing or too short when there is no buffer; otherwise the message byte for byte: header, fields, actions in network order, data. |
| MsgCreate.CreateFlowMod | lib/cc_of_msg_create.c:480-546 | The message byte for byte: header, match in network order, the eight fields, actions in network order. |
| MsgCreate.CreateStatsReply | lib/cc_of_msg_create.c:769-786 | A zeroed reply with header, type and flags set. |
| MsgCreate.CreateFlowStatsReply | lib/cc_of_msg_create.c:822-871 | The message byte for byte: the records in network order, contiguous, after the header. |
| MsgCreate.CreateQueueGetConfigReply | lib/cc_of_msg_create.c:1123-1179 | The message byte for byte: the queues in network order, contiguous, after header, port and padding. |
| Agreement.HeaderAccepted | lib/cc_of_msg_create.c:50-77 | A header that was built is accepted for its type and reads back its length and transaction id. |
| Agreement.ValidOnWire | lib/cc_of_msg_create.c:461-466 | An action is valid on the wire exactly if it was valid in host order. |
| Agreement.WireActionsJudged | lib/cc_of_msg_check.c:1521-1539 | validate_actions ends on the actions a builder wrote, and passes them exactly if their fields are in range. |
| Agreement.PacketOutAgrees | lib/cc_of_msg_check.c:487-524 | Every packet-out that was built is accepted exactly if its port and actions are valid; it carries every argument, and its actions convert back to those supplied, in order, padding zeroed. |
| Agreement.FlowModFields | lib/cc_of_msg_check.c:541-578 | The fields of a flow-mod are accepted exactly if match, command, priority, out_port and flags are valid. |
| Agreement.FlowModAgrees | lib/cc_of_msg_check.c:527-592 | Every flow-mod that was built is accepted exactly if its arguments are valid; it carries every argument, and match and actions convert back, padding zeroed. Every field of the match has the value supplied. |
| Agreement.FlowJudged | lib/cc_of_msg_check.c:967-1011 | One record that was built passes its round of the loop exactly if its match, priority and actions are valid. |
| Agreement.FlowsJudged | lib/cc_of_msg_check.c:967-1011 | The loop ends on every list of records that was built, the empty one included, and passes it, with its counter at exactly 0, exactly if every record is valid. |
| Agreement.FlowStatsReplyAgrees | lib/cc_of_msg_check.c:944-1015 | Every flow statistics reply that was built is accepted exactly if flags and records are valid; the records tile the body and convert back, padding zeroed. Every field of every record has the value supplied. |
| Agreement.QueueJudged | lib/cc_of_msg_check.c:1378-1404 | A queue that was built passes exactly if all its properties are valid, and has the length both loops move on by. |
| Agreement.QueuesJudged | lib/cc_of_msg_check.c:1452-1473 | The counting loop ends with nothing left and finds exactly the queues that the validating loop then visits. |
| Agreement.QueueReplyAgrees | lib/cc_of_msg_check.c:1428-1477 | Every reply built from at least one queue with at least one property each is accepted exactly if the port and all properties are valid; the queues tile the body with all padding zero, and ntoh_packet_queue gives every one of them back, but for padding, in whatever memory. |
| Agreement.BuiltQueueConvertsBack | lib/cc_of_msg_create.c:1123-1179 | One queue as the builder lays it out: same id, length, types and rates, padding zero, and converting it gives the supplied one back. |
| ErrorMaps.Search | lib/cc_of_msg_check.c:2276-2283 | The loop over a table that ends in a zero entry returns the first match, and nothing exactly if there is none. |
| ErrorMaps.TransErrorTypeAndCode | lib/cc_of_msg_check.c:2266-2286 | The OpenFlow type and code of every error of every modelled type of message, by number, and none for the two without an entry; undefined types are bad types; in general the first entry for the error, or none. |
| ErrorMaps.PlainTranslated | lib/cc_of_msg_check.c:1830-2264 | For HELLO, ERROR, ECHO, VENDOR, FEATURES_REQUEST, GET_CONFIG_REQUEST, SET_CONFIG, PORT_MOD, STATS_REQUEST, BARRIER and QUEUE_GET_CONFIG_REQUEST every negative result of validate_openflow_message has a translation. |
| ErrorMaps.ActionsTranslated | lib/cc_of_msg_check.c:1830-2264 | For PACKET_OUT and FLOW_MOD an error has a translation exactly if it is neither ERROR_TOO_SHORT_ACTION nor ERROR_INVALID_NW_TOS. |
| ErrorMaps.MissingAreReached | lib/cc_of_msg_check.c:487-592 | Both errors are returned for messages of both types. |
| Verdicts.HeaderVerdict | lib/cc_of_msg_check.c:23-62 | Every code of validate_header, and 0, by length, version, type and length field. |
| Verdicts.PortVerdict | lib/cc_of_msg_check.c:158-165 | -52 for port 0 and for ports between the physical and the reserved ones, 0 for all others. |
| Verdicts.MatchVerdict | lib/cc_of_msg_check.c:349-414 | The code of the first of wildcards, VLAN id, VLAN priority and TOS that is out of range, 0 if none is. |
| Verdicts.ActionVerdict | lib/cc_of_msg_check.c:1480-1827 | Every code of validate_action: too short a header, an unknown type, by type too short or too long, then a bad port, VLAN id, VLAN priority or TOS; 0 otherwise. |
| Verdicts.PropertyVerdict | lib/cc_of_msg_check.c:1323-1353 | Every code of validate_queue_property, by type and length. |
| Verdicts.WalkVerdict | lib/cc_of_msg_check.c:1521-1539 | On any bytes the walk over actions, or properties, stops at the first offset past the end, with 0, or at which an element fails, with its code; if there is none it runs on. |
| Verdicts.FlowModFieldsVerdict | lib/cc_of_msg_check.c:543-577 | The code of the first of match, command, priority, port and flags that is wrong. |
| Verdicts.PacketOutVerdict | lib/cc_of_msg_check.c:487-524 | What validate_packet_out returns, by header, port and the walk over the actions. |
| Verdicts.FlowModVerdict | lib/cc_of_msg_check.c:527-592 | What validate_flow_mod returns, by header, fields and the walk over the actions. |
| Verdicts.FlowStatsVerdict | lib/cc_of_msg_check.c:971-1006 | What one record gives, by match, priority and the walk over its actions; a record shorter than its fixed part makes that walk over 65448 bytes more than it has. |
| Verdicts.FlowStatsReplyVerdict | lib/cc_of_msg_check.c:944-1015 | What validate_flow_stats_reply returns, by header, flags and the loop over the records. |
| Verdicts.PacketQueueVerdict | lib/cc_of_msg_check.c:1378-1403 | What validate_packet_queue returns, by length and the walk over the properties. |
| Verdicts.QueuesVerdict | lib/cc_of_msg_check.c:1406-1425 | The loop over n queues returns what the first gives that does not pass, and 0 if all pass. |
| Verdicts.QueueReplyVerdict | lib/cc_of_msg_check.c:1428-1477 | What validate_queue_get_config_reply returns, by header, port, what the counting loop leaves, and the queues. |
| Verdicts.HeaderOnlyVerdict | lib/cc_of_msg_check.c:65-156 | HELLO, ERROR, ECHO_*, VENDOR, FEATURES_REQUEST, GET_CONFIG_REQUEST and BARRIER_*: accepted exactly if the header fits; otherwise its code. |
| Verdicts.SetConfigVerdict | lib/cc_of_msg_check.c:273-309 | SET_CONFIG: its header, then flags of at most 3. |
| Verdicts.PortModVerdict | lib/cc_of_msg_check.c:595-632 | PORT_MOD: its header, then a physical or the local port, then configuration, mask and features to advertise below 0x80; the code of the first that is wrong. |
| Verdicts.StatsRequestVerdict | lib/cc_of_msg_check.c:634-918 | Every kind of STATS_REQUEST: its type, its header, its flags, and for flows and aggregates match and port, for ports and queues the port; the code of the first that is wrong. |
| Verdicts.QueueConfigRequestVerdict | lib/cc_of_msg_check.c:1300-1319 | QUEUE_GET_CONFIG_REQUEST: its header, then its port. |
| Checksum.Accumulate | lib/cc_utility.c:569-575 | The 32-bit accumulator is the sum of the host-order words, an odd last byte included, modulo 2^32. |
| Checksum.WordsAre | lib/cc_utility.c:569-575 | The words are the 16-bit values at even offsets, and an odd last byte by itself. |
| Checksum.GetChecksum | lib/cc_utility.c:565-581 | On all data, 65535 - r after at most two folds, where r is congruent modulo 65535 to what the accumulator keeps, and 0 only if that is 0; up to 131074 bytes the accumulator keeps the whole sum. |
| Checksum.ComputedRight | lib/cc_utility.c:569-580 | The result is that of the whole sum exactly if the accumulator overflows a multiple of 65535 times and does not lose everything. |
| Checksum.RightUpTo | lib/cc_utility.c:569-580 | The sum of all data of a length fits 32 bits, and the checksum of all of it is right, exactly if the length is at most 131074. |
| Checksum.ResidueUnique | lib/cc_utility.c:565-581 | There is only one such r. |
| Checksum.StoredChecksumVerifies | lib/cc_utility.c:565-581 | Writing the checksum into an aligned slot that held zero makes the checksum of the whole 0. |
| Checksum.ChecksumPermutes | lib/cc_utility.c:565-581 | Permuting the words leaves the checksum unchanged. |
| Checksum.ChecksumSwaps | lib/cc_utility.c:565-581 | Swapping the bytes of every word swaps the bytes of the checksum. |
| Checksum.WordsSwap | lib/cc_utility.c:565-581 | Reading the data in the other byte order swaps the bytes of every word. |
| KeyHash.HashCore | lib/cc_utility.c:50-64 | The loop computes FNV-1a from the offset basis. |
| KeyHash.PublishedValues | lib/cc_utility.c:50-64 | The values published for the empty key and for the key a. |
| KeyHash.StepInjective | lib/cc_utility.c:50-64 | One round is injective in the state and in the byte, because the prime has an inverse modulo 2^32. |
| KeyHash.OneByteMatters | lib/cc_utility.c:50-64 | Two keys of equal length that differ in exactly one byte have different hash values. |
| KeyHash.NoCollision | lib/cc_utility.c:66-117 | So Ethernet addresses, datapath ids and strings of equal length that differ in one byte do not collide. |
| KeyHash.Comparisons | lib/cc_utility.c:38-111 | Strings compare by what comes before their first zero byte, addresses and datapath ids by all their bytes. |
| KeyHash.IntegerHashes | lib/cc_hash_table.c:55-58 | A pointer hashes to its bits from the third on; an integer (lib/cc_utility.c:102-105) to itself, but the greatest to 0. |
| KeyHash.KeysAreProper | lib/cc_utility.c:38-117 | Every pair of compare and hash function is an equivalence and a hash that respects it, as the hash table demands; the pair for pointers included. |
| Xid.XidGenerator.GenerateXid | lib/cc_xid.c:27-48 | Ends, by the cyclic distance of the counter from the first candidate, and returns c + 1 if c < 2^32 - 1 and c + 1 is free, 2^32 - 1 if c = 2^32 - 1 and 0 is free, and 0 otherwise. |
| Xid.FreshWhen | lib/cc_xid.c:27-48 | Exactly when the id that is returned is not in use. |
| Xid.StaleAlthoughFree | lib/cc_xid.c:27-48 | An id in use can be returned although another is free. |
| Xid.CounterSaturates | lib/cc_xid.c:27-48 | With no id in use the ids go up by one and then stay at 2^32 - 1 for good. |

## Left out

- HashTable.HashTable.constructor: the defaults for a NULL comparison or hash function and for the size are not modelled; `KeyHash.KeysAreProper` shows that the default pair meets the precondition.
- HashTable.HashTable.InsertHashEntry: keys are values, so a key that is changed after insertion is not modelled; nor are malloc failure, NULL tables and keys, and the mutex itself.
- HashTable.HashTable.ForEachHash: a callback is a function of the entries handed out so far that names handed-out keys to delete; one that inserts, or deletes keys it has not been handed, is not modelled. Bucket numbers go through `int`, so those of the non-empty buckets must be below 2^31 (`IndexFitsInt`).
- HashTable.HashTable.DeleteHash: freeing the bucket array, the table and the mutex is not tracked, only that of list nodes and entries.
- HashIterator.Iterator.IterateHashNext: the table must not have been modified, as the source's comment demands; `InitHashIterator` and it have the same limit on the numbers of non-empty buckets.
- ByteOrder.NtohFlowStats: on a record whose lengths do not tile it, or do not fit their types, the source reads and writes outside the record; the contract starts from records where they do. The same holds for `HtonFlowStats` and `NtohPacketQueue`.
- ByteOrder.HtonPacketQueue: as for `NtohFlowStats`; nor is it said what is written when src shows another length than the queue has, since the source then reads beyond its copy or stops early.
- ByteOrder.HtonAction: an undefined type calls die(), which is not modelled.
- ByteOrder.NtohMatch: the source structure is a value here, so a destination that overlaps it is not modelled, nor is the order in which the fields are assigned. The same holds for the other structures of fixed size and for `ActionVendor`, of which the hton_ function takes the length of the body from src when it has written that of dst. Flow records, queues and, towards network order, properties of queues copy their source first, and there overlap is covered.
- MsgCreate.CreatePacketOut: ETH_FCS_LENGTH and ETH_MINIMUM_LENGTH are not defined in the repository and are parameters. Lengths whose 16-bit total overflows make the source write past its buffer; the contract excludes them, here and for the other builders.
- MsgCheck.ValidateActions: the method is proved for the bytes on which its loop ends; `Endings.EndsUnlessRecurs` says which those are. The same holds for the other validators that loop.
- Xid.XidGenerator.GenerateXid: the table of ids is a set; cc_lookup_xid_entry (lib/cc_xid.c:160-168) returns the opposite of what its caller expects, and the rest of that table is not part of this model.
- Validators of FEATURES_REPLY, GET_CONFIG_REPLY, PACKET_IN, FLOW_REMOVED, PORT_STATUS and of the other statistics replies: no nested lengths; they would only add easy members. Their rows of the error table are part of `Maps`.
- Converters of physical ports and of aggregate, table, port and queue statistics, and the remaining builders: fixed structures of the same kind as those modelled.
- Bit masks are written as comparisons, quotients and remainders of the values they test.
- mac_to_uint64, string_to_datapath_id, the functions that print structures, die and logging.
- Lists of lib/cc_single_link.c are sequences; lib/cc_buffer.c and lib/cc_queue.c are not part of this model.
- Sockets, the event loop, message handlers and senders, timers and the thread pool.
