/** The message boxes the app shows through React Native's `Alert.alert(title, message?)`. */
module Notices {
  import opened Wrappers

  datatype Alert = Alert(title: string, message: Option<string>)
}
