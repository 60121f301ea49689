/** The records the scripts collect into their DataFrame. */
module Records {
  import opened Calendar

  /** One entry of `parsed_data` once its date is a calendar date: the
      columns `ticker`, `date`, `time` and `title`. */
  datatype Record = Record(ticker: string, date: Date, time: string, title: string)
}
