/**
The calls to the operating system, the random generator and the database that an operation makes. An
operation is given the set of calls that fail: such a call reports an error and
changes nothing.
*/
module Faults {

  datatype Call =
    | GenerateKey | CreateStage | SyncStage | GenerateIds
    | MakeShard | StatObject | LinkObject | RemoveStage | TakeBackLink | OpenShard | SyncShard
    | DeleteObject | AbortStage
    | BeginTx | QueryRow | InsertMetadata | InsertPayload | UpdatePayload | UpdateMetadata | DeleteRow | CommitTx
}
