/** One diary entry as the backend returns it. */
module Diary {
  import opened Utf16
  import opened Wrappers

  /** `date` is "YYYY-MM-DD"; `score` is the analyser's integer score. */
  datatype DiaryEntry = DiaryEntry(date: string, line: Text, score: int, description: Option<Text>)
}
