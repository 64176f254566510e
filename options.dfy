/** The optional value used throughout the model: `None` stands for a JavaScript
    `undefined`/`null`, or for a parse that did not match. */
module Options {

  datatype Option<+T> = None | Some(value: T)

}
