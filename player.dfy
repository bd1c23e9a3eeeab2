/** The flat player record that ingestion writes and the dashboard reads. */
module Player {

  /** One document of the `players` collection, without MongoDB's `_id`.
      `price` is exact: the source's float division by 10 is taken as a
      rational number. */
  datatype PlayerRecord = PlayerRecord(
    name: string,
    team: string,
    position: string,
    price: real,
    totalPoints: int,
    goalsScored: int,
    assists: int,
    minutes: int)
}
