/** The device's key-value storage, as `AsyncStorage` exposes it to the app. */
module Storage {

  /** Text values under text keys; a missing key is what `getItem` reports as null. */
  type Store = map<string, string>
}
