/** The minors this version of the application supports (`backend/src/versionPolicy.js`). */
module VersionPolicy {
  const SUPPORTED_MINORS := ["4.20", "4.21", "4.22"]
}
