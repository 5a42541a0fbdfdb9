/** The fields of `memory.stat` and `memory.numa_stat` that have a known unit, by kernel name. */
module MemoryFields {
  import opened Wrappers

  const BYTE_FIELDS: set<string> := {
    "anon", "file", "kernel", "kernel_stack", "pagetables", "sec_pagetables", "percpu", "sock", "vmalloc",
    "shmem", "zswap", "zswap_incomp", "zswapped", "file_mapped", "file_dirty", "file_writeback", "swapcached",
    "anon_thp", "file_thp", "shmem_thp", "inactive_anon", "active_anon", "inactive_file", "active_file",
    "unevictable", "slab_reclaimable", "slab_unreclaimable", "slab", "hugetlb"
  }

  const PAGE_FIELDS: set<string> := {
    "pswpin", "pswpout", "pgscan", "pgsteal", "pgscan_kswapd", "pgscan_direct", "pgscan_khugepaged",
    "pgscan_proactive", "pgsteal_kswapd", "pgsteal_direct", "pgsteal_khugepaged", "pgsteal_proactive",
    "pgrefill", "pgactivate", "pgdeactivate", "pglazyfree", "pglazyfreed", "swpin_zero", "swpout_zero",
    "zswpin", "zswpout", "zswpwb", "numa_pages_migrated", "numa_pte_updates", "pgdemote_kswapd",
    "pgdemote_direct", "pgdemote_khugepaged", "pgdemote_proactive", "pgpromote_success"
  }

  const COUNT_FIELDS: set<string> := {
    "workingset_refault_anon", "workingset_refault_file", "workingset_activate_anon",
    "workingset_activate_file", "workingset_restore_anon", "workingset_restore_file", "workingset_nodereclaim",
    "pgfault", "pgmajfault", "thp_fault_alloc", "thp_collapse_alloc", "thp_swpout", "thp_swpout_fallback",
    "numa_hint_faults"
  }

  datatype Unit = Bytes | Pages | Counts

  /** The fields every supported kernel reports. */
  const BASELINE_FIELDS: seq<string> := ["anon", "file"]

  function UnitOf(key: string): Option<Unit> {
    if key in BYTE_FIELDS then Some(Bytes)
    else if key in PAGE_FIELDS then Some(Pages)
    else if key in COUNT_FIELDS then Some(Counts)
    else None
  }

  lemma PagesAreNotBytes(key: string)
    ensures key in PAGE_FIELDS ==> key !in BYTE_FIELDS
  {
  }

  lemma CountsAreNotBytes(key: string)
    ensures key in COUNT_FIELDS ==> key !in BYTE_FIELDS
  {
  }

  lemma CountsAreNotPages(key: string)
    ensures key in COUNT_FIELDS ==> key !in PAGE_FIELDS
  {
  }

  /** No name has two units, so the order in which the three tables are tried does not matter. */
  lemma UnitsAreDisjoint(key: string)
    ensures key in BYTE_FIELDS ==> UnitOf(key) == Some(Bytes)
    ensures key in PAGE_FIELDS ==> UnitOf(key) == Some(Pages)
    ensures key in COUNT_FIELDS ==> UnitOf(key) == Some(Counts)
  {
    PagesAreNotBytes(key);
    CountsAreNotBytes(key);
    CountsAreNotPages(key);
  }
}
