/** The definition index the indexer writes and the search service reads
    (kythe/cs/defindex/defindex.go). */
module DefIndex {

  /** One named definition: its full name (lower case), how many references
      it has, and the byte span of the name; the three numbers are Go uint32s. */
  datatype Definition = Definition(fullName: string, refCount: nat, startByte: nat, endByte: nat)

  /** A file with its name in original and in lower case, and its definitions. */
  datatype File = File(name: string, nameLower: string, defs: seq<Definition>)
}
