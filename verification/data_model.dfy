/**
 * The FrequentWord record and the constraints the FrequentWords table puts on it:
 * a unique, required Word of at most 200 characters and an integer Frequent.
 * The table itself is modelled as a map from Word to Frequent, so the unique
 * index on Word holds by construction.
 */
module DataModel {

  /** One row of the FrequentWords table (the surrogate Id key is not modelled). */
  datatype FrequentWord = FrequentWord(word: string, frequent: int)

  /** The MaxLength of the Word column. */
  const MaxWordLength: nat := 200

  /** The column accepts the word: it is at most MaxWordLength characters long. */
  predicate FitsWordColumn(w: string) {
    |w| <= MaxWordLength
  }

  /** Every stored word satisfies the column constraint. */
  ghost predicate ValidTable(table: map<string, int>) {
    forall w :: w in table ==> FitsWordColumn(w)
  }

  /** No word occurs in two records of the list. */
  predicate DistinctWords(rows: seq<FrequentWord>) {
    forall i, j :: 0 <= i < j < |rows| ==> rows[i].word != rows[j].word
  }
}
