/** An optional value. `None` stands for the outcomes where the game's code
    produces nothing usable: an index outside a list (IndexError) or a
    `list.remove` of an absent element (ValueError). */
module Optional {

  datatype Option<+T> = None | Some(value: T)

}
