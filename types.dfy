/** The records and enumerations of types.ts. */
module Types {

  /** A value or its absence; `None` stands for the source's `null`. */
  datatype Option<T> = None | Some(value: T)

  /** One flashcard: an opaque identifier, the term and its definition. */
  datatype Flashcard = Flashcard(id: string, front: string, back: string)

  /** How the back page is permuted: 'horizontal' reverses the columns,
      'vertical' reverses the rows, 'none' leaves the order alone. */
  datatype MirrorMode = Horizontal | Vertical | NoMirror

  /** The display fonts the user can pick from. */
  datatype FontName = Inter | Roboto | OpenSans | Montserrat | PlayfairDisplay | Merriweather

  /** One cell of a page: a card, or empty. */
  type Slot = Option<Flashcard>
}
