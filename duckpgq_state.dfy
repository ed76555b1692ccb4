/** The CSR registry that the session state of src/include/duckpgq_state.hpp holds: the
    structures under construction by id, and the ids whose build failed validation. */
module PgqState {
  import opened CompressedSparseRow

  class DuckPgqState {
    var csrList: map<int, CSR>
    var csrToDelete: set<int>

    /** A new session state holds no CSR and marks no id for deletion. */
    constructor ()
      ensures csrList == map[] && csrToDelete == {}
    {
      csrList := map[];
      csrToDelete := {};
    }
  }
}
