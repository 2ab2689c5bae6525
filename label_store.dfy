/**
 * The `labels` table of the remote store, seen through the two calls the
 * application makes: `save_label_supabase` (an upsert keyed by filename) and
 * `load_all_labels` (the set of filenames that have a row). The network
 * client itself is outside this model.
 */
module LabelStore {

  class Store {
    /** One row per filename: the tags saved for it, last write wins. */
    var rows: map<string, seq<string>>

    constructor (rows: map<string, seq<string>>)
      ensures this.rows == rows
    {
      this.rows := rows;
    }

    /** `save_label_supabase`: insert or overwrite the row for `filename`; no other row changes. */
    method Upsert(filename: string, labels: seq<string>)
      modifies this
      ensures rows == old(rows)[filename := labels]
      ensures filename in LabeledFilenames()
      ensures LabeledFilenames() == old(LabeledFilenames()) + {filename}
    {
      rows := rows[filename := labels];
    }

    /** `load_all_labels`: every filename with a stored row. */
    function LabeledFilenames(): (names: set<string>)
      reads this
      ensures forall f :: f in names <==> f in rows
    {
      rows.Keys
    }
  }
}
