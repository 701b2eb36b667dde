/** Request and outcome flags of src/global.h; a status word is the set of its bits. */
module CacheStatus {
  datatype Flag =
    | READ | WRITE | PAGEMISS | PAGEHIT | EVICT | BLKMISS | BLKHIT
    | COLD2COLD | COLD2HOT | DIRTY | SEQEVICT | LESSSEQEVICT

  type Status = set<Flag>
}
