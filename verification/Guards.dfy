/** Guards of invariants.  They are always true: an invariant behind one is passed on as a whole by the
    operations that do not touch what it is about, and the others mention the guard to get at its
    parts.  The sector window, which lies under everything else of a volume, has its own. */
module Guards {
  ghost predicate Opens(k: nat) { true }

  ghost predicate OpensWindow(k: nat) { true }
}
